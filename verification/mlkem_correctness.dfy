/** K-PKE on byte strings: encryption followed by decryption gives the message back exactly when every
    coefficient of the noise is one its message bit survives. */
module MlKemCorrectness {
  import opened Machine
  import opened Modular
  import opened Polynomials
  import opened Transform
  import opened Digits
  import opened MlKemArith
  import opened MlKemNtt
  import opened MlKemEncode
  import opened MlKemCompress
  import opened MlKemParams
  import opened MlKemScheme
  import opened MlKemDecryption

  // ----- the codec loses nothing -----

  lemma KeyParts(h: Hashes, p: ParameterSet, d: seq<Byte>)
    requires IsParameterSet(p) && SamplersEnd(h)
    ensures EkT(p, EkOf(h, p, d)) == TOf(h, p, d) && EkRho(p, EkOf(h, p, d)) == SeedsOf(h, p, d).0
    ensures KeyVec(DkPkeOf(h, p, d), p.k) == NttVec(SOf(h, p, d))
  {
    hide TOf, SOf, SeedsOf, VecBytes, KeyVec, Forward, Valid;
    var t, s := TOf(h, p, d), NttVec(SOf(h, p, d));
    VecSize(t, p.k);
    VecSize(s, p.k);
    KeyVecRoundTrip(t);
    KeyVecRoundTrip(s);
    var ek := EkOf(h, p, d);
    assert ek[..384 * p.k] == VecBytes(t, 12);
  }

  lemma CiphertextParts(p: ParameterSet, u: seq<seq<int>>, v: seq<int>)
    requires IsParameterSet(p) && IsVec(u, p.k) && IsPoly(v)
    ensures |u| == p.k
    ensures CtU(p, CiphertextBytes(p, u, v)) == DecompressVec(p.du, CompressVec(p.du, u))
    ensures CtV(p, CiphertextBytes(p, u, v)) == DecompressPoly(p.dv, CompressPoly(p.dv, v))
  {
    hide VecBytes, BytesVec, Encoded, Decoded, CompressVec, CompressPoly, DecompressVec, DecompressPoly, Valid,
         AreDigits;
    Sizes(p);
    var c := CiphertextBytes(p, u, v);
    var x, y := CompressVec(p.du, u), CompressPoly(p.dv, v);
    assert c[..32 * p.du * p.k] == VecBytes(x, p.du) && c[32 * p.du * p.k..] == Encoded(y, p.dv);
    VecRoundTrip(x, p.du);
    DecodeOfEncode(y, p.dv);
  }

  // ----- the noise of one encryption -----

  /** A ciphertext's u and v, and what decompression makes of them. */
  ghost function CuOf(p: ParameterSet, u: seq<seq<int>>): (r: seq<seq<int>>)
    requires IsParameterSet(p) && IsVec(u, p.k)
    ensures IsVec(r, p.k)
  {
    hide CompressVec, DecompressVec, Valid;
    Sizes(p);
    SubVec(DecompressVec(p.du, CompressVec(p.du, u)), u)
  }

  ghost function CvOf(p: ParameterSet, v: seq<int>): (r: seq<int>)
    requires IsParameterSet(p) && IsPoly(v)
    ensures IsPoly(r)
  {
    hide CompressPoly, DecompressPoly;
    Sizes(p);
    PSub(Q, DecompressPoly(p.dv, CompressPoly(p.dv, v)), v)
  }

  /** What encryption under the key of d with randomness r computes before compression. */
  ghost function UFor(h: Hashes, p: ParameterSet, d: seq<Byte>, r: seq<Byte>): (u: seq<seq<int>>)
    requires IsParameterSet(p) && SamplersEnd(h)
    ensures IsVec(u, p.k)
  {
    UOf(h, p, SeedsOf(h, p, d).0, r)
  }

  ghost function VFor(h: Hashes, p: ParameterSet, d: seq<Byte>, m: seq<Byte>, r: seq<Byte>): (v: seq<int>)
    requires IsParameterSet(p) && SamplersEnd(h) && |m| == 32
    ensures IsPoly(v)
  {
    VOf(h, p, TOf(h, p, d), m, r)
  }

  /** e . y + e2 + cv - s . e1 - s . cu, where cu and cv are what compression loses. */
  ghost function NoiseOf(h: Hashes, p: ParameterSet, d: seq<Byte>, m: seq<Byte>, r: seq<Byte>): (n: seq<int>)
    requires IsParameterSet(p) && SamplersEnd(h) && |m| == 32
    ensures IsPoly(n)
  {
    hide SamplersEnd, SOf, EOf, YOf, E1Of, E2Of, UFor, VFor, CuOf, CvOf, Dot, IsPoly;
    var s, e, y := SOf(h, p, d), EOf(h, p, d), YOf(h, p, r);
    NoiseSum(Dot(e, y, p.k), E2Of(h, p, r), CvOf(p, VFor(h, p, d, m, r)), Dot(s, E1Of(h, p, r), p.k),
             Dot(s, CuOf(p, UFor(h, p, d, r)), p.k))
  }

  /** What decryption compresses to one bit a coefficient is the encoded message plus the noise. */
  lemma WOfEncrypted(h: Hashes, p: ParameterSet, d: seq<Byte>, m: seq<Byte>, r: seq<Byte>)
    requires IsParameterSet(p) && SamplersEnd(h) && |m| == 32
    ensures var c := Encrypted(h, p, EkOf(h, p, d), m, r);
      WPoly(KeyVec(DkPkeOf(h, p, d), p.k), CtU(p, c), CtV(p, c), p.k) == PAdd(Q, Mu(m), NoiseOf(h, p, d, m, r))
  {
    hide SamplersEnd, IsPoly, EkOf, DkPkeOf, KeyVec, CiphertextBytes, CtU, CtV, WPoly, SOf, EOf, YOf, E1Of, E2Of, Mu,
         Matrix, SeedsOf, CompressVec, DecompressVec, CompressPoly, DecompressPoly, UVec, VPoly, THat, Dot, PAdd, PSub,
         NttVec, NoiseSum, SubVec, IsMatrix;
    KeyParts(h, p, d);
    var a, s, e := Matrix(h, SeedsOf(h, p, d).0, p.k), SOf(h, p, d), EOf(h, p, d);
    var y, e1, e2 := YOf(h, p, r), E1Of(h, p, r), E2Of(h, p, r);
    var u, v := UFor(h, p, d, r), VFor(h, p, d, m, r);
    CiphertextParts(p, u, v);
    Sizes(p);
    WIsMessagePlusNoise(a, s, e, y, e1, e2, Mu(m), DecompressVec(p.du, CompressVec(p.du, u)),
      DecompressPoly(p.dv, CompressPoly(p.dv, v)), p.k);
  }

  // ----- correctness -----

  /** Every bit of the message survives the noise. */
  ghost predicate NoiseInBound(h: Hashes, p: ParameterSet, d: seq<Byte>, m: seq<Byte>, r: seq<Byte>)
    requires IsParameterSet(p) && SamplersEnd(h) && |m| == 32
  {
    forall i :: 0 <= i < N ==> Survives(MessageBits(m)[i], Centered(NoiseOf(h, p, d, m, r)[i]))
  }

  /** Rounding the message plus noise to bits, and encoding them, gives the message exactly when every bit
      survives. */
  lemma RoundedMessage(m: seq<Byte>, noise: seq<int>)
    requires |m| == 32 && IsPoly(noise)
    ensures Encoded(CompressPoly(1, PAdd(Q, Mu(m), noise)), 1) == m
       <==> forall i :: 0 <= i < N ==> Survives(MessageBits(m)[i], Centered(noise[i]))
  {
    hide Encoded, Decoded, Compress, Decompress, Add, Survives, Centered;
    var b := MessageBits(m);
    var x := CompressPoly(1, PAdd(Q, Mu(m), noise));
    assert Pow2(1) == 2;
    forall i | 0 <= i < N
      ensures x[i] == b[i] <==> Survives(b[i], Centered(noise[i]))
    {
      BitSurvives(b[i], noise[i]);
    }
    EncodeOfDecode(m, 1);
    DecodeOfEncode(x, 1);
    if Encoded(x, 1) == m {
      assert x == b;
    }
    if forall i :: 0 <= i < N ==> Survives(b[i], Centered(noise[i])) {
      assert x == b;
    }
  }

  /** For every parameter set, seed d, message and randomness, decryption undoes encryption if and only if
      every message bit survives its noise. */
  lemma DecryptionCorrect(h: Hashes, p: ParameterSet, d: seq<Byte>, m: seq<Byte>, r: seq<Byte>)
    requires IsParameterSet(p) && SamplersEnd(h) && |m| == 32
    ensures Decrypted(p, DkPkeOf(h, p, d), Encrypted(h, p, EkOf(h, p, d), m, r)) == m <==> NoiseInBound(h, p, d, m, r)
  {
    hide SamplersEnd, EkOf, DkPkeOf, Encrypted, NoiseOf, KeyVec, CtU, CtV, WPoly, MessageBits, Survives, Centered,
         Encoded, CompressPoly, Valid;
    WOfEncrypted(h, p, d, m, r);
    RoundedMessage(m, NoiseOf(h, p, d, m, r));
  }

  /** A bound that does not depend on the message: 831. */
  lemma UniformBound(h: Hashes, p: ParameterSet, d: seq<Byte>, m: seq<Byte>, r: seq<Byte>)
    requires IsParameterSet(p) && SamplersEnd(h) && |m| == 32
    requires forall i :: 0 <= i < N ==> -831 <= Centered(NoiseOf(h, p, d, m, r)[i]) <= 831
    ensures Decrypted(p, DkPkeOf(h, p, d), Encrypted(h, p, EkOf(h, p, d), m, r)) == m
  {
    hide SamplersEnd, EkOf, DkPkeOf, Encrypted, Decrypted, NoiseOf, MessageBits, Centered, Valid;
    DecryptionCorrect(h, p, d, m, r);
  }
}
