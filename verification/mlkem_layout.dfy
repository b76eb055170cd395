/** Where every bit of ML-KEM's keys, messages and ciphertexts stands, and the lengths that FIPS 203 section 8 lists. */
module MlKemLayout {
  import opened Machine
  import opened Modular
  import opened Polynomials
  import opened Chunks
  import opened Packing
  import opened Streams
  import opened Layout
  import opened MlKemNtt
  import opened MlKemEncode
  import opened MlKemCompress
  import opened MlKemParams
  import opened MlKemScheme
  import opened MlKem

  /** FIPS 203 table 3. */
  lemma StandardLengths()
    ensures EncapsKeyLen(ML_KEM_512) == 800 && DecapsKeyLen(ML_KEM_512) == 1632 && CiphertextLen(ML_KEM_512) == 768
    ensures EncapsKeyLen(ML_KEM_768) == 1184 && DecapsKeyLen(ML_KEM_768) == 2400 && CiphertextLen(ML_KEM_768) == 1088
    ensures EncapsKeyLen(ML_KEM_1024) == 1568 && DecapsKeyLen(ML_KEM_1024) == 3168
      && CiphertextLen(ML_KEM_1024) == 1568
  {
  }

  /** An encoded polynomial holds its coefficients in d bits each. */
  lemma EncodedHolds(f: seq<int>, d: nat)
    requires 1 <= d <= 12 && Encodable(f, d)
    ensures Holds(Encoded(f, d), f, d)
  {
    hide Pow2, Packed, Holds;
    FitsBits(f, d);
    LowsOfDigits(f, d);
    PackedHolds(f, d);
  }

  /** Polynomial i of an encoded vector begins at byte lo. */
  lemma VecPiece(v: seq<seq<int>>, d: nat, i: nat, lo: int)
    requires 1 <= d <= 12 && i < |v| && (forall j :: 0 <= j < |v| ==> |v[j]| == N) && Encodable(v[i], d)
    requires lo == 32 * d * i
    ensures 0 <= lo <= lo + 32 * d <= |VecBytes(v, d)|
    ensures Holds(VecBytes(v, d)[lo..lo + 32 * d], v[i], d)
  {
    hide Encoded, Concat, Holds, Encodable;
    PieceAt(Pieces(v, d), 32 * d, i);
    EncodedHolds(v[i], d);
  }

  lemma KeyPiece(v: seq<seq<int>>, k: nat, i: nat)
    requires IsVec(v, k) && i < k
    ensures |VecBytes(v, 12)| == 384 * k && 384 * i + 384 <= 384 * k
    ensures Holds(VecBytes(v, 12)[384 * i..384 * i + 384], v[i], 12)
  {
    hide VecBytes, Holds;
    VecSize(v, k);
    VecPiece(v, 12, i, 384 * i);
  }

  lemma FrontOf(a: seq<Byte>, b: seq<Byte>, lo: nat, hi: nat)
    requires lo <= hi <= |a|
    ensures (a + b)[lo..hi] == a[lo..hi]
  {
  }

  /** t in twelve bits a coefficient, then rho. */
  lemma EncapsKeyLayout(h: Hashes, p: ParameterSet, d: seq<Byte>, i: nat)
    requires IsParameterSet(p) && SamplersEnd(h) && i < p.k
    ensures |TOf(h, p, d)| == p.k
    ensures Holds(EkOf(h, p, d)[384 * i..384 * i + 384], TOf(h, p, d)[i], 12)
    ensures EkOf(h, p, d)[384 * p.k..] == SeedsOf(h, p, d).0
  {
    hide TOf, VecBytes, Holds, SeedsOf, Valid;
    var t := TOf(h, p, d);
    VecSize(t, p.k);
    KeyPiece(t, p.k, i);
    FrontOf(VecBytes(t, 12), SeedsOf(h, p, d).0, 384 * i, 384 * i + 384);
  }

  /** The transform of s in twelve bits a coefficient, then ek, H(ek) and z. */
  lemma DecapsKeyLayout(h: Hashes, p: ParameterSet, d: seq<Byte>, z: seq<Byte>, i: nat)
    requires IsParameterSet(p) && SamplersEnd(h) && |z| == 32 && i < p.k
    ensures |NttVec(SOf(h, p, d))| == p.k
    ensures var dk, ek := DkOf(h, p, d, z), EkOf(h, p, d);
      && Holds(dk[384 * i..384 * i + 384], NttVec(SOf(h, p, d))[i], 12)
      && dk[384 * p.k..768 * p.k + 32] == ek
      && dk[768 * p.k + 32..768 * p.k + 64] == Take(h.sha3_256(ek), 0, 32)
      && dk[768 * p.k + 64..] == z
  {
    hide SOf, EkOf, VecBytes, Holds, SamplersEnd, IsPoly, NttVec;
    GeneratedParts(h, p, d, z);
    var s := NttVec(SOf(h, p, d));
    VecSize(SOf(h, p, d), p.k);
    VecSize(s, p.k);
    KeyPiece(s, p.k, i);
    FrontOf(DkPkeOf(h, p, d), EkOf(h, p, d) + H(h, EkOf(h, p, d)) + z, 384 * i, 384 * i + 384);
    assert DkOf(h, p, d, z) == DkPkeOf(h, p, d) + (EkOf(h, p, d) + H(h, EkOf(h, p, d)) + z);
  }

  /** A message's bits, one for each coefficient. */
  lemma MessageLayout(m: seq<Byte>)
    requires |m| == 32
    ensures Holds(m, MessageBits(m), 1)
  {
    hide Unpacked, Holds;
    UnpackedHolds(m, 1);
  }

  /** The compressed coefficients of u in du bits each, then those of v in dv bits. */
  lemma CiphertextLayout(p: ParameterSet, u: seq<seq<int>>, v: seq<int>, i: nat, lo: int)
    requires IsParameterSet(p) && IsVec(u, p.k) && IsPoly(v) && i < p.k && lo == 32 * p.du * i
    ensures 0 <= lo && lo + 32 * p.du <= 32 * p.du * p.k <= CiphertextLen(p) && |u| == p.k
    ensures var c := CiphertextBytes(p, u, v);
      && Holds(c[lo..lo + 32 * p.du], CompressPoly(p.du, u[i]), p.du)
      && Holds(c[32 * p.du * p.k..], CompressPoly(p.dv, v), p.dv)
  {
    hide VecBytes, Encoded, CompressPoly, Holds, Valid, Pow2;
    Sizes(p);
    VecSize(u, p.k);
    var x, y := CompressVec(p.du, u), CompressPoly(p.dv, v);
    VecPiece(x, p.du, i, lo);
    FrontOf(VecBytes(x, p.du), Encoded(y, p.dv), lo, lo + 32 * p.du);
    EncodedHolds(y, p.dv);
    assert CiphertextBytes(p, u, v)[32 * p.du * p.k..] == Encoded(y, p.dv);
  }
}
