/** Compression of coefficients: the second half of macula-mlkem/src/encode.rs. */
module MlKemCompress {
  import opened Modular
  import opened Machine
  import opened Polynomials
  import opened Digits
  import opened Norms
  import opened MlKemArith
  import opened MlKemNtt

  /** n / q by one multiplication with ceil(2^48 / q) and a shift. */
  function DivQ(n: int): (r: int)
    requires 0 <= n < 0x80_0000
    ensures r == n / Q
  {
    var magic := (0x1_0000_0000_0000 + Q - 1) / Q;
    CeilingMagic(n, Q, magic, 0x1_0000_0000_0000, magic * Q - 0x1_0000_0000_0000);
    U64(n * magic) / 0x1_0000_0000_0000
  }

  /** A number of bits a coefficient is compressed to. */
  lemma Widths(d: nat)
    requires 1 <= d <= 11
    ensures 2 <= Pow2(d) <= 0x800 && Pow2(d) == 2 * Pow2(d - 1)
    ensures d == 1 ==> Pow2(d) == 2
    ensures d == 4 ==> Pow2(d) == 16
    ensures d == 5 ==> Pow2(d) == 32
    ensures d == 10 ==> Pow2(d) == 0x400
    ensures d == 11 ==> Pow2(d) == 0x800
  {
    assert Pow2(0) == 1 && Pow2(1) == 2 && Pow2(4) == 16 && Pow2(5) == 32;
    Pow2Monotone(1, d);
    Pow2Monotone(d, 11);
    Pow2Byte();
    Pow2Add(8, 2);
    Pow2Add(8, 3);
    assert Pow2(2) == 4 && Pow2(3) == 8;
  }

  lemma QuotientFits(n: int, p: int)
    requires 0 <= n <= 3328 * p + 1664 && 2 <= p
    ensures 0 <= n / Q <= p && n / Q * Q <= n < n / Q * Q + Q
  {
    var k := n / Q;
    assert n == k * Q + n % Q;
    if k >= p + 1 { Scaled(p + 1, k, Q); }
  }

  /** The quotient before the bits above d are dropped: the integer nearest to 2^d x / q. */
  function Nearest(d: nat, x: int): (k: int)
    requires 1 <= d <= 11 && 0 <= x < Q
    ensures -Q < 2 * (k * Q - x * Pow2(d)) < Q
    ensures 0 <= k <= Pow2(d)
  {
    hide Pow2;
    Widths(d);
    var p := Pow2(d);
    Scaled(x, Q - 1, p);
    Scaled(0, x, p);
    Scaled(p, 0x800, Q - 1);
    var n := x * p + 1664;
    QuotientFits(n, p);
    DivQ(U64(n))
  }

  /** FIPS 203 equation 4.7. */
  function Compress(d: nat, x: int): (r: int)
    requires 1 <= d <= 11 && 0 <= x < Q
    ensures 0 <= r < Pow2(d)
    ensures r == if Nearest(d, x) == Pow2(d) then 0 else Nearest(d, x)
  {
    hide Pow2, Nearest;
    Widths(d);
    var k := Nearest(d, x);
    if k < Pow2(d) then
      ModCanon(Pow2(d), k);
      I16(k % Pow2(d))
    else
      ModOf(Pow2(d), 1, 0);
      I16(k % Pow2(d))
  }

  lemma Halves(y: int, p: int, half: int)
    requires 0 <= y < p == 2 * half && p <= 0x800
    ensures 0 <= y * Q + half < 0x80_0000
    ensures var r := (y * Q + half) / p; -p < 2 * (r * p - y * Q) <= p && 0 <= r < Q
  {
    var n := y * Q + half;
    var r := n / p;
    Scaled(y, p - 1, Q);
    Scaled(0, y, Q);
    assert n == r * p + n % p;
    QuotientRange(n, p);
    assert p * Q == Q * p;
    if r >= Q { Scaled(Q, r, p); }
  }

  /** FIPS 203 equation 4.8: the integer nearest to q y / 2^d, halves rounded up. */
  function Decompress(d: nat, y: int): (r: int)
    requires 1 <= d <= 11 && 0 <= y < Pow2(d)
    ensures 0 - Pow2(d) < 2 * (r * Pow2(d) - y * Q) <= Pow2(d)
    ensures 0 <= r < Q
  {
    hide Pow2;
    Widths(d);
    Halves(y, Pow2(d), Pow2(d - 1));
    I16(U64(y * Q + Pow2(d - 1)) / Pow2(d))
  }

  /** Compressing what was decompressed loses nothing. */
  lemma CompressOfDecompress(d: nat, y: int)
    requires 1 <= d <= 11 && 0 <= y < Pow2(d)
    ensures Compress(d, Decompress(d, y)) == y
  {
    hide Pow2, Compress, Decompress, Nearest;
    Widths(d);
    var p, x := Pow2(d), Decompress(d, y);
    var k := Nearest(d, x);
    assert (k - y) * Q == k * Q - y * Q;
    if k - y >= 1 { Scaled(1, k - y, Q); }
    if k - y <= -1 { Scaled(k - y, -1, Q); }
  }

  /** How far compression moves a coefficient, on the circle of residues: q / 2^(d + 1), rounded up. */
  function Loss(d: nat): (b: int)
    requires 1 <= d <= 11
  {
    hide Pow2;
    Widths(d);
    (Q + Pow2(d)) / (2 * Pow2(d))
  }

  /** The two rounding errors add up. */
  lemma Errors(p: int, k: int, x: int, v: int)
    requires -Q < 2 * (k * Q - x * p) < Q && -p < 2 * (v * p - k * Q) <= p
    ensures -(Q + p) < 2 * p * (v - x) <= Q + p
  {
    assert 2 * (v * p - k * Q) + 2 * (k * Q - x * p) == 2 * p * (v - x);
  }

  /** Where compression moves x, not yet reduced: a value that wrapped to 0 stands for q. */
  lemma Moved(d: nat, x: int) returns (v: int)
    requires 1 <= d <= 11 && 0 <= x < Q
    ensures var r := Decompress(d, Compress(d, x)); v == r || v == r + Q
    ensures Pow2(d) > 0 && -(Q + Pow2(d)) < 2 * Pow2(d) * (v - x) <= Q + Pow2(d)
  {
    hide Pow2, Compress, Decompress, Nearest;
    var p, k, y := Pow2(d), Nearest(d, x), Compress(d, x);
    var r := Decompress(d, y);
    v := if y == k then r else r + Q;
    assert (r + Q) * p == r * p + p * Q;
    Errors(p, k, x, v);
  }

  lemma LossIs(e: int, p: int)
    requires 2 <= p && -(Q + p) < 2 * p * e <= Q + p
    ensures -((Q + p) / (2 * p)) <= e <= (Q + p) / (2 * p)
  {
    var b := (Q + p) / (2 * p);
    assert Q + p == b * (2 * p) + (Q + p) % (2 * p);
    assert 2 * p * e == e * (2 * p);
    if e >= b + 1 { Scaled(b + 1, e, 2 * p); }
    if e <= -b - 1 { Scaled(e, -b - 1, 2 * p); }
  }

  lemma SmallResidue(r: int, x: int, v: int)
    requires 0 <= r < Q && 0 <= x < Q && (v == r || v == r + Q)
    ensures var e := v - x; Size(Q, Sub(Q, r, x)) <= if e < 0 then -e else e
  {
  }

  lemma DecompressOfCompress(d: nat, x: int)
    requires 1 <= d <= 11 && 0 <= x < Q
    ensures Size(Q, Sub(Q, Decompress(d, Compress(d, x)), x)) <= Loss(d)
  {
    hide Pow2, Compress, Decompress, Nearest, Sub, Size;
    Widths(d);
    var v := Moved(d, x);
    LossIs(v - x, Pow2(d));
    SmallResidue(Decompress(d, Compress(d, x)), x, v);
  }

  // ----- polynomials -----

  function CompressPoly(d: nat, f: seq<int>): (r: seq<int>)
    requires 1 <= d <= 11 && IsPoly(f)
    ensures |r| == N && AreDigits(r, Pow2(d))
  {
    seq(N, i requires 0 <= i < N => Compress(d, f[i]))
  }

  function DecompressPoly(d: nat, f: seq<int>): (r: seq<int>)
    requires 1 <= d <= 11 && |f| == N && AreDigits(f, Pow2(d))
    ensures IsPoly(r)
  {
    seq(N, i requires 0 <= i < N => Decompress(d, f[i]))
  }

  method CompressAll(d: nat, f: seq<int>) returns (out: seq<int>)
    requires 1 <= d <= 11 && IsPoly(f)
    ensures out == CompressPoly(d, f)
  {
    hide Compress;
    var o := new int[N];
    for i := 0 to N
      invariant forall j :: 0 <= j < i ==> o[j] == Compress(d, f[j])
    {
      o[i] := Compress(d, f[i]);
    }
    out := o[..];
  }

  method DecompressAll(d: nat, f: seq<int>) returns (out: seq<int>)
    requires 1 <= d <= 11 && |f| == N && AreDigits(f, Pow2(d))
    ensures out == DecompressPoly(d, f)
  {
    hide Decompress;
    var o := new int[N];
    for i := 0 to N
      invariant forall j :: 0 <= j < i ==> o[j] == Decompress(d, f[j])
    {
      o[i] := Decompress(d, f[i]);
    }
    out := o[..];
  }

  // ----- one message bit -----

  /** The representative of a residue between -q/2 and q/2. */
  function Centered(a: int): (c: int)
    requires 0 <= a < Q
    ensures -1664 <= c <= 1664 && c % Q == a
  {
    if a <= 1664 then a else a - Q
  }

  /** The noise a message bit survives. The rounding is asymmetric: a 1 tolerates one less upwards. */
  predicate Survives(b: int, e: int) {
    if b == 1 then -832 <= e <= 831 else -832 <= e <= 832
  }

  lemma NoisyHalf(b: int, e: int)
    requires (b == 0 || b == 1) && 0 <= e < Q
    ensures Survives(b, Centered(e)) <==> (b == 1 <==> 833 <= Add(Q, if b == 1 then 1665 else 0, e) <= 2496)
  {
  }

  /** One bit of a coefficient: 1 on the half circle from 833 to 2496. */
  lemma RoundedBit(x: int)
    requires 0 <= x < Q
    ensures Compress(1, x) == if 833 <= x <= 2496 then 1 else 0
  {
    hide Compress, Pow2;
    Widths(1);
    var k := Nearest(1, x);
  }

  /** Decryption reads bit b back from its encoding plus noise e exactly when e is in that range. */
  lemma BitSurvives(b: int, e: int)
    requires (b == 0 || b == 1) && 0 <= e < Q
    ensures Pow2(1) == 2
    ensures Compress(1, Add(Q, Decompress(1, b), e)) == b <==> Survives(b, Centered(e))
  {
    hide Decompress, Compress, Pow2, Survives, Centered, Add;
    Widths(1);
    assert Decompress(1, b) == if b == 1 then 1665 else 0;
    RoundedBit(Add(Q, Decompress(1, b), e));
    NoisyHalf(b, e);
  }
}
