/** The loops of macula-mlkem/src/kpke.rs, each proved to compute the function of MlKemScheme that says what it
    is for. */
module MlKemPke {
  import opened Machine
  import opened Modular
  import opened Polynomials
  import opened Transform
  import opened Chunks
  import opened Digits
  import opened MlKemArith
  import opened MlKemNtt
  import opened MlKemEncode
  import opened MlKemCompress
  import opened MlKemParams
  import opened MlKemSample
  import opened MlKemScheme

  // ----- vectors -----

  method NttOf(f: seq<int>) returns (r: seq<int>)
    requires IsPoly(f)
    ensures r == Forward(KEM, f)
  {
    hide Forward, Valid;
    var w := new int[N](i requires 0 <= i < N => f[i]);
    assert w[..] == f;
    Ntt(w);
    r := w[..];
  }

  method InttOf(f: seq<int>) returns (r: seq<int>)
    requires IsPoly(f)
    ensures r == Inverse(KEM, f)
  {
    hide Inverse, Valid;
    var w := new int[N](i requires 0 <= i < N => f[i]);
    assert w[..] == f;
    Intt(w);
    r := w[..];
  }

  method NttAll(v: seq<seq<int>>) returns (r: seq<seq<int>>)
    requires IsVec(v, |v|)
    ensures r == NttVec(v)
  {
    hide Forward, Valid;
    r := [];
    for i := 0 to |v|
      invariant |r| == i && forall t :: 0 <= t < i ==> r[t] == Forward(KEM, v[t])
    {
      var f := NttOf(v[i]);
      r := r + [f];
    }
  }

  /** The fold: products added up from zero. */
  method InnerProduct(a: seq<seq<int>>, b: seq<seq<int>>, n: nat) returns (acc: seq<int>)
    requires IsVec(a, |a|) && IsVec(b, |b|) && n <= |a| && n <= |b|
    ensures acc == Inner(a, b, n)
  {
    hide Pointwise, PAdd;
    acc := Zero(N);
    for j := 0 to n
      invariant acc == Inner(a, b, j)
    {
      var x := MultiplyNtts(a[j], b[j]);
      acc := PolyAdd(acc, x);
    }
  }

  // ----- sampling -----

  method SampleRow(h: Hashes, rho: seq<Byte>, k: nat, i: nat) returns (row: seq<seq<int>>)
    requires SamplersEnd(h) && |rho| == 32 && k <= 4 && i < k
    ensures row == RowOfA(h, rho, k, i)
  {
    hide IsPoly, NttPoly;
    row := [];
    for j := 0 to k
      invariant |row| == j && forall t :: 0 <= t < j ==> row[t] == EntryOfA(h, rho, k, i, t)
    {
      var seed := rho + [j, i];
      var f := SampleNtt(h.shake128(seed));
      row := row + [f];
    }
  }

  /** The two nested maps; the seed's last two bytes are the column, then the row. */
  method SampleMatrix(h: Hashes, rho: seq<Byte>, k: nat) returns (a: seq<seq<seq<int>>>)
    requires SamplersEnd(h) && |rho| == 32 && k <= 4
    ensures a == Matrix(h, rho, k)
  {
    hide SamplersEnd, RowOfA;
    a := [];
    for i := 0 to k
      invariant |a| == i && forall t :: 0 <= t < i ==> a[t] == RowOfA(h, rho, k, t)
    {
      var row := SampleRow(h, rho, k, i);
      a := a + [row];
    }
  }

  /** k polynomials; the counter n, a byte, moves on with each. */
  method Noise(h: Hashes, eta: nat, k: nat, sigma: seq<Byte>, n: nat) returns (v: seq<seq<int>>, n': nat)
    requires 1 <= eta <= 3 && n + k < 256
    ensures v == NoiseVec(h, eta, k, sigma, n) && n' == n + k
  {
    hide IsPoly, Cbd, Prf;
    v := [];
    n' := n;
    for i := 0 to k
      invariant n' == n + i
      invariant |v| == i && forall t :: 0 <= t < i ==> v[t] == NoiseAt(h, eta, sigma, n, t)
    {
      var f := SamplePolyCbd(eta, Prf(h, eta, sigma, n'));
      v := v + [f];
      n' := n' + 1;
    }
  }

  // ----- bytes -----

  /** One polynomial encoded into its piece of a buffer. */
  method EncodePiece(f: seq<int>, d: nat) returns (s: seq<Byte>)
    requires 1 <= d <= 12 && |f| == N && (forall i :: 0 <= i < N ==> 0 <= f[i] < 0x8000)
    ensures s == Encoded(f, d)
  {
    hide Encoded;
    var out := new Byte[32 * d];
    ByteEncode(d, f, out);
    s := out[..];
  }

  method EncodeVec(v: seq<seq<int>>, d: nat) returns (s: seq<Byte>)
    requires 1 <= d <= 12
    requires forall i :: 0 <= i < |v| ==> |v[i]| == N && forall j :: 0 <= j < N ==> 0 <= v[i][j] < 0x8000
    ensures s == VecBytes(v, d)
  {
    hide Encoded, Concat;
    ghost var pieces := Pieces(v, d);
    NothingConcat(pieces);
    s := [];
    for i := 0 to |v|
      invariant s == Concat(pieces[..i])
    {
      var piece := EncodePiece(v[i], d);
      assert pieces[..i + 1] == pieces[..i] + [pieces[i]];
      ConcatSnoc(pieces[..i], pieces[i]);
      s := s + piece;
    }
    assert pieces[..|v|] == pieces;
  }

  method DecodeVec(s: seq<Byte>, d: nat, n: nat) returns (v: seq<seq<int>>)
    requires 1 <= d <= 12 && |s| == 32 * d * n
    ensures v == BytesVec(s, d, n)
  {
    hide Decoded, Split;
    ghost var size := 32 * d;
    ghost var pieces := Split(s, size, n);
    v := [];
    for i := 0 to n
      invariant |v| == i && forall t :: 0 <= t < i ==> v[t] == Decoded(pieces[t], d)
    {
      Chunks.SplitAt(s, size, n, i);
      var f := ByteDecode(d, s[32 * d * i..32 * d * i + 32 * d]);
      v := v + [f];
    }
  }

  lemma CoefficientsFit(v: seq<seq<int>>)
    requires IsVec(v, |v|)
    ensures forall i :: 0 <= i < |v| ==> |v[i]| == N && forall j :: 0 <= j < N ==> 0 <= v[i][j] < 0x8000
  {
  }

  // ----- FIPS 203 Algorithm 13 -----

  method PublicVec(a: seq<seq<seq<int>>>, ghost s: seq<seq<int>>, sHat: seq<seq<int>>, ghost e: seq<seq<int>>,
                   eHat: seq<seq<int>>, k: nat)
    returns (t: seq<seq<int>>)
    requires IsMatrix(a, k) && IsVec(s, k) && IsVec(e, k) && |s| == |e| == k && sHat == NttVec(s) && eHat == NttVec(e)
    ensures t == THat(a, s, e, k)
  {
    hide Valid, Forward, Inner, PAdd;
    t := [];
    for i := 0 to k
      invariant |t| == i && forall j :: 0 <= j < i ==> t[j] == PAdd(Q, Inner(a[j], sHat, k), eHat[j])
    {
      var x := InnerProduct(a[i], sHat, k);
      var ti := PolyAdd(x, eHat[i]);
      t := t + [ti];
    }
  }

  method KeyGenPke(h: Hashes, p: ParameterSet, d: seq<Byte>) returns (ek: seq<Byte>, dk: seq<Byte>)
    requires IsParameterSet(p) && SamplersEnd(h) && |d| == 32
    ensures ek == EkOf(h, p, d) && dk == DkPkeOf(h, p, d)
  {
    hide SamplersEnd, IsPoly, IsMatrix, Matrix, NoiseVec, Forward, VecBytes, Inner, PAdd, G;
    Sizes(p);
    var (rho, sigma) := G(h, d + [p.k]);
    var a := SampleMatrix(h, rho, p.k);
    var s, n := Noise(h, p.eta1, p.k, sigma, 0);
    var e, n' := Noise(h, p.eta1, p.k, sigma, n);
    VecSize(s, p.k);
    VecSize(e, p.k);
    var sHat := NttAll(s);
    var eHat := NttAll(e);
    var t := PublicVec(a, s, sHat, e, eHat, p.k);
    assert t == TOf(h, p, d);
    VecSize(t, p.k);
    CoefficientsFit(t);
    CoefficientsFit(sHat);
    var tBytes := EncodeVec(t, 12);
    ek := tBytes + rho;
    dk := EncodeVec(sHat, 12);
  }

  // ----- FIPS 203 Algorithm 14 -----

  method TransposedVec(a: seq<seq<seq<int>>>, ghost y: seq<seq<int>>, yHat: seq<seq<int>>, e1: seq<seq<int>>, k: nat)
    returns (u: seq<seq<int>>)
    requires IsMatrix(a, k) && IsVec(y, k) && |y| == k && yHat == NttVec(y) && IsVec(e1, k)
    ensures u == UVec(a, y, e1, k)
  {
    hide Valid, Inverse, Inner, PAdd, NttVec;
    u := [];
    for i := 0 to k
      invariant |u| == i && forall j :: 0 <= j < i ==>
        u[j] == PAdd(Q, Inverse(KEM, Inner(Column(a, k, j), yHat, k)), e1[j])
    {
      var x := InnerProduct(Column(a, k, i), yHat, k);
      var acc := InttOf(x);
      var ui := PolyAdd(acc, e1[i]);
      u := u + [ui];
    }
  }

  method MessagePoly(m: seq<Byte>) returns (mu: seq<int>)
    requires |m| == 32
    ensures mu == Mu(m)
  {
    hide Decoded, DecompressPoly;
    var bits := ByteDecode(1, m);
    assert bits == MessageBits(m);
    mu := DecompressAll(1, bits);
  }

  method MaskedMessage(t: seq<seq<int>>, ghost y: seq<seq<int>>, yHat: seq<seq<int>>, e2: seq<int>, mu: seq<int>,
                       k: nat) returns (v: seq<int>)
    requires IsVec(t, k) && IsVec(y, k) && |y| == k && yHat == NttVec(y) && IsPoly(e2) && IsPoly(mu)
    ensures v == VPoly(t, y, e2, mu, k)
  {
    hide Valid, Inverse, Inner, PAdd, NttVec;
    var x := InnerProduct(t, yHat, k);
    var acc := InttOf(x);
    var sum := PolyAdd(acc, e2);
    v := PolyAdd(sum, mu);
  }

  method CompressedBytes(p: ParameterSet, u: seq<seq<int>>, v: seq<int>) returns (c: seq<Byte>)
    requires IsParameterSet(p) && IsVec(u, p.k) && IsPoly(v)
    ensures c == CiphertextBytes(p, u, v)
  {
    hide VecBytes, Encoded, CompressPoly, Valid;
    Sizes(p);
    VecSize(u, p.k);
    var x := [];
    for i := 0 to p.k
      invariant |x| == i && forall t :: 0 <= t < i ==> x[t] == CompressPoly(p.du, u[t])
    {
      var f := CompressAll(p.du, u[i]);
      x := x + [f];
    }
    assert x == CompressVec(p.du, u);
    Widths(p.du);
    Widths(p.dv);
    var c1 := EncodeVec(x, p.du);
    var y := CompressAll(p.dv, v);
    var c2 := EncodePiece(y, p.dv);
    c := c1 + c2;
  }

  lemma E2Is(h: Hashes, p: ParameterSet, r: seq<Byte>)
    requires IsParameterSet(p)
    ensures E2Of(h, p, r) == Cbd(p.eta2, Prf(h, p.eta2, r, 2 * p.k))
  {
  }

  method Encrypt(h: Hashes, p: ParameterSet, ek: seq<Byte>, m: seq<Byte>, r: seq<Byte>) returns (c: seq<Byte>)
    requires IsParameterSet(p) && SamplersEnd(h) && |ek| == EncapsKeyLen(p) && |m| == 32 && |r| == 32
    ensures c == Encrypted(h, p, ek, m, r)
  {
    hide SamplersEnd, IsPoly, IsMatrix, Matrix, NoiseVec, NoisePoly, BytesVec, UVec, VPoly, Mu, CiphertextBytes,
         NttVec;
    Sizes(p);
    var t := DecodeVec(ek[..384 * p.k], 12, p.k);
    assert t == EkT(p, ek);
    var rho := ek[384 * p.k..];
    var a := SampleMatrix(h, rho, p.k);
    var y, n := Noise(h, p.eta1, p.k, r, 0);
    var e1, n' := Noise(h, p.eta2, p.k, r, n);
    var e2 := SamplePolyCbd(p.eta2, Prf(h, p.eta2, r, n'));
    assert e2 == E2Of(h, p, r) by { E2Is(h, p, r); }
    VecSize(y, p.k);
    var yHat := NttAll(y);
    var u := TransposedVec(a, y, yHat, e1, p.k);
    var mu := MessagePoly(m);
    var v := MaskedMessage(t, y, yHat, e2, mu, p.k);
    c := CompressedBytes(p, u, v);
  }

  // ----- FIPS 203 Algorithm 15 -----

  lemma PieceDigits(s: seq<Byte>, d: nat, n: nat, i: nat)
    requires 1 <= d < 12 && |s| == 32 * d * n && i < n
    ensures |BytesVec(s, d, n)[i]| == N && AreDigits(BytesVec(s, d, n)[i], Pow2(d))
  {
  }

  method DecompressedVec(p: ParameterSet, c: seq<Byte>) returns (u: seq<seq<int>>)
    requires IsParameterSet(p) && |c| == CiphertextLen(p)
    ensures u == CtU(p, c) && |u| == p.k
  {
    hide Valid, Decoded, DecompressPoly;
    Sizes(p);
    var x := DecodeVec(c[..32 * p.du * p.k], p.du, p.k);
    u := [];
    for i := 0 to p.k
      invariant |u| == i && forall t :: 0 <= t < i ==>
        |x[t]| == N && AreDigits(x[t], Pow2(p.du)) && u[t] == DecompressPoly(p.du, x[t])
    {
      assert AreDigits(x[i], Pow2(p.du)) by { PieceDigits(c[..32 * p.du * p.k], p.du, p.k, i); }
      var f := DecompressAll(p.du, x[i]);
      u := u + [f];
    }
  }

  lemma DecodedDigits(b: seq<Byte>, d: nat)
    requires d < 12
    ensures AreDigits(Decoded(b, d), Pow2(d))
  {
  }

  method Decrypt(p: ParameterSet, dkPke: seq<Byte>, c: seq<Byte>) returns (m: seq<Byte>)
    requires IsParameterSet(p) && |dkPke| == 384 * p.k && |c| == CiphertextLen(p)
    ensures m == Decrypted(p, dkPke, c)
  {
    hide Valid, BytesVec, Decoded, DecompressPoly, CompressPoly, Encoded, Inverse, Inner, PSub, Forward;
    Sizes(p);
    var u := DecompressedVec(p, c);
    var y := ByteDecode(p.dv, c[32 * p.du * p.k..]);
    assert AreDigits(y, Pow2(p.dv)) by { DecodedDigits(c[32 * p.du * p.k..], p.dv); }
    var v := DecompressAll(p.dv, y);
    var s := DecodeVec(dkPke, 12, p.k);
    assert s == KeyVec(dkPke, p.k);
    var uHat := NttAll(u);
    var x := InnerProduct(s, uHat, p.k);
    var su := InttOf(x);
    var w := PolySub(v, su);
    var bits := CompressAll(1, w);
    Widths(1);
    m := EncodePiece(bits, 1);
  }
}
