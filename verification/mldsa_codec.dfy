/** Keys and signatures as byte strings: the encoders and decoders of macula-mldsa/src/encode.rs that
    work on vectors of polynomials. */
module MlDsaCodec {
  import opened Machine
  import opened Modular
  import opened Polynomials
  import opened Digits
  import opened Chunks
  import opened Packing
  import opened MlDsaArith
  import opened MlDsaParams
  import opened MlDsaPack
  import Hint = MlDsaHint

  predicate IsVec(v: seq<seq<int>>, n: nat) {
    |v| == n && forall i :: 0 <= i < n ==> IsPoly(v[i])
  }

  predicate VecFits(v: seq<seq<int>>, b: int, bits: nat)
    requires 0 <= b < Q
  {
    forall i :: 0 <= i < |v| ==> FitsBelow(b, v[i], bits)
  }

  /** A vector of signed values, polynomial after polynomial. */
  function Pieces(v: seq<seq<int>>, b: int, bits: nat): (r: seq<seq<Byte>>)
    requires 0 <= b < Q && VecFits(v, b, bits)
    ensures |r| == |v| && forall i :: 0 <= i < |r| ==> |r[i]| == 32 * bits
  {
    seq(|v|, i requires 0 <= i < |v| => BitPacked(v[i], b, bits))
  }

  function VecBytes(v: seq<seq<int>>, b: int, bits: nat): (r: seq<Byte>)
    requires 0 <= b < Q && VecFits(v, b, bits)
    ensures |r| == 32 * bits * |v|
  {
    ConcatLength(Pieces(v, b, bits), 32 * bits);
    Concat(Pieces(v, b, bits))
  }

  function BytesVec(s: seq<Byte>, b: int, bits: nat, n: nat): (v: seq<seq<int>>)
    requires 0 <= b < Q && bits <= 20 && |s| == 32 * bits * n
    ensures IsVec(v, n)
  {
    var pieces := Split(s, 32 * bits, n);
    seq(n, i requires 0 <= i < n => BitUnpacked(pieces[i], b, bits))
  }

  lemma VecRoundTrip(v: seq<seq<int>>, b: int, bits: nat)
    requires 0 <= b < Q && bits <= 20 && VecFits(v, b, bits)
    ensures BytesVec(VecBytes(v, b, bits), b, bits, |v|) == v
  {
    hide BitPacked, BitUnpacked, FitsBelow, Concat, Split;
    SplitConcat(Pieces(v, b, bits), 32 * bits);
    forall i | 0 <= i < |v|
      ensures BitUnpacked(Pieces(v, b, bits)[i], b, bits) == v[i]
    {
      BitUnpackOfPack(v[i], b, bits);
    }
    var r := BytesVec(VecBytes(v, b, bits), b, bits, |v|);
    assert forall i :: 0 <= i < |v| ==> r[i] == v[i];
  }

  lemma BytesRoundTrip(s: seq<Byte>, b: int, bits: nat, n: nat)
    requires 0 <= b < Q && bits <= 20 && |s| == 32 * bits * n
    ensures VecFits(BytesVec(s, b, bits, n), b, bits)
    ensures VecBytes(BytesVec(s, b, bits, n), b, bits) == s
  {
    hide BitPacked, BitUnpacked, FitsBelow, Concat, Split;
    var pieces := Split(s, 32 * bits, n);
    var v := BytesVec(s, b, bits, n);
    forall i | 0 <= i < n
      ensures FitsBelow(b, v[i], bits) && BitPacked(v[i], b, bits) == pieces[i]
    {
      BitPackOfUnpack(pieces[i], b, bits);
    }
    assert Pieces(v, b, bits) == pieces;
    ConcatSplit(s, 32 * bits, n);
  }

  lemma RoomFor(n: nat, i: nat, count: nat)
    requires i < count
    ensures n * i + n <= n * count && n * (i + 1) == n * i + n
  {
    Scaled(i + 1, count, n);
  }

  /** One more piece between what was written and what is still as it was. */
  lemma PieceWritten(now: seq<Byte>, before: seq<Byte>, was: seq<Byte>, at: nat, end: nat, piece: seq<Byte>)
    requires at <= end && end + |piece| <= |before| == |was|
    requires now == before[..end] + piece + before[end + |piece|..]
    requires before[..at] == was[..at] && before[end..] == was[end..]
    ensures |now| == |was| && now[..at] == was[..at] && now[at..end + |piece|] == before[at..end] + piece
    ensures now[end + |piece|..] == was[end + |piece|..]
  {
    assert now[..at] == before[..at];
    assert now[end + |piece|..] == before[end..][|piece|..] == was[end..][|piece|..] == was[end + |piece|..];
  }

  /** The loop that packs a vector into a buffer from position at on. Returns the position after it. */
  method PackVec(out: array<Byte>, at: nat, v: seq<seq<int>>, b: int, bits: nat) returns (end: nat)
    requires 0 <= b < Q && 1 <= bits <= 20 && VecFits(v, b, bits) && at + 32 * bits * |v| <= out.Length
    modifies out
    ensures end == at + 32 * bits * |v|
    ensures out[..] == old(out[..at]) + VecBytes(v, b, bits) + old(out[end..])
  {
    hide FitsBelow, BitPacked, Concat;
    end := at;
    ghost var n, was := 32 * bits, out[..];
    ghost var pieces := Pieces(v, b, bits);
    NothingConcat(pieces);
    for i := 0 to |v|
      invariant end == at + n * i && end <= out.Length
      invariant out[..at] == was[..at] && out[at..end] == Concat(pieces[..i]) && out[end..] == was[end..]
    {
      RoomFor(n, i, |v|);
      ghost var before := out[..];
      BitPack(v[i], b, bits, out, end);
      PieceWritten(out[..], before, was, at, end, pieces[i]);
      assert pieces[..i + 1] == pieces[..i] + [pieces[i]];
      ConcatSnoc(pieces[..i], pieces[i]);
      end := end + 32 * bits;
    }
    assert pieces[..|v|] == pieces;
    assert out[..] == out[..at] + out[at..end] + out[end..];
  }

  /** The loop that unpacks a vector of n polynomials. */
  method UnpackVec(s: seq<Byte>, b: int, bits: nat, n: nat) returns (v: seq<seq<int>>)
    requires 0 <= b < Q && 1 <= bits <= 20 && |s| == 32 * bits * n
    ensures v == BytesVec(s, b, bits, n)
  {
    hide BitUnpacked, Split;
    ghost var size := 32 * bits;
    ghost var pieces := Split(s, size, n);
    v := [];
    var at := 0;
    for i := 0 to n
      invariant at == size * i && at <= |s| && |v| == i
      invariant forall t :: 0 <= t < i ==> v[t] == BitUnpacked(pieces[t], b, bits)
    {
      RoomFor(size, i, n);
      SplitAt(s, size, n, i);
      var poly := BitUnpack(s[at..at + 32 * bits], b, bits);
      v := v + [poly];
      at := at + 32 * bits;
    }
  }

  // ----- public keys -----

  predicate IsT1(t1: seq<seq<int>>, k: nat) {
    |t1| == k && forall i :: 0 <= i < k ==> |t1[i]| == N && AreDigits(t1[i], 0x400)
  }

  function T1Pieces(t1: seq<seq<int>>, k: nat): (r: seq<seq<Byte>>)
    requires IsT1(t1, k)
    ensures |r| == k && forall i :: 0 <= i < k ==> |r[i]| == 320
  {
    seq(k, i requires 0 <= i < k => Packed(t1[i], 10))
  }

  function PkBytes(rho: seq<Byte>, t1: seq<seq<int>>, k: nat): (r: seq<Byte>)
    requires |rho| == 32 && IsT1(t1, k)
    ensures |r| == 32 + 320 * k
  {
    ConcatLength(T1Pieces(t1, k), 320);
    rho + Concat(T1Pieces(t1, k))
  }

  function PkRho(pk: seq<Byte>): (r: seq<Byte>)
    requires |pk| >= 32
    ensures |r| == 32
  {
    pk[..32]
  }

  function PkT1(pk: seq<Byte>, k: nat): (t1: seq<seq<int>>)
    requires |pk| == 32 + 320 * k
    ensures |t1| == k && forall i :: 0 <= i < k ==> |t1[i]| == N && AreDigits(t1[i], Pow2(10))
  {
    var pieces := Split(pk[32..], 320, k);
    seq(k, i requires 0 <= i < k => Unpacked(pieces[i], 10))
  }

  lemma Pow2Ten()
    ensures Pow2(10) == 0x400
  {
    Pow2Byte();
    Pow2Add(8, 2);
    assert Pow2(2) == 4;
  }

  lemma PkRoundTrip(rho: seq<Byte>, t1: seq<seq<int>>, k: nat)
    requires |rho| == 32 && IsT1(t1, k)
    ensures PkRho(PkBytes(rho, t1, k)) == rho && PkT1(PkBytes(rho, t1, k), k) == t1
  {
    hide Packed, Unpacked, Concat, Split, AreDigits, Pow2;
    var pk := PkBytes(rho, t1, k);
    var pieces := T1Pieces(t1, k);
    SplitConcat(pieces, 320);
    assert pk[32..] == Concat(pieces) && pk[..32] == rho;
    Pow2Ten();
    forall i | 0 <= i < k
      ensures Unpacked(pieces[i], 10) == t1[i]
    {
      UnpackOfPack(t1[i], 10);
    }
    var r := PkT1(pk, k);
    assert forall i :: 0 <= i < k ==> r[i] == t1[i];
  }

  /** Every string of the right length is the encoding of what it decodes to. */
  lemma PkDecodeEncode(pk: seq<Byte>, k: nat)
    requires |pk| == 32 + 320 * k
    ensures IsT1(PkT1(pk, k), k) && PkBytes(PkRho(pk), PkT1(pk, k), k) == pk
  {
    hide Packed, Unpacked, Concat, Split, Pow2;
    var pieces := Split(pk[32..], 320, k);
    Pow2Ten();
    forall i | 0 <= i < k
      ensures Packed(PkT1(pk, k)[i], 10) == pieces[i]
    {
      PackOfUnpack(pieces[i], 10);
    }
    assert T1Pieces(PkT1(pk, k), k) == pieces;
    ConcatSplit(pk[32..], 320, k);
  }

  /** FIPS 204 Algorithm 22. */
  method PkEncode(pk: array<Byte>, rho: seq<Byte>, t1: seq<seq<int>>, k: nat)
    requires |rho| == 32 && IsT1(t1, k) && pk.Length == 32 + 320 * k
    modifies pk
    ensures pk[..] == PkBytes(rho, t1, k)
  {
    hide Packed, Concat, AreDigits, Pow2;
    for i := 0 to 32
      invariant pk[..i] == rho[..i]
    {
      pk[i] := rho[i];
    }
    ghost var pieces := T1Pieces(t1, k);
    var at := 32;
    NothingConcat(pieces);
    Pow2Ten();
    for i := 0 to k
      invariant at == 32 + 320 * i && at <= pk.Length
      invariant pk[..32] == rho && pk[32..at] == Concat(pieces[..i])
    {
      ghost var before := pk[..];
      SimpleBitPack(t1[i], 10, pk, at);
      assert pieces[..i + 1] == pieces[..i] + [pieces[i]];
      ConcatSnoc(pieces[..i], pieces[i]);
      assert pk[..] == before[..at] + pieces[i] + before[at + 320..];
      assert pk[32..at + 320] == before[32..at] + pieces[i];
      assert pk[..32] == before[..32];
      at := at + 320;
    }
    assert pieces[..k] == pieces;
    assert pk[..] == pk[..32] + pk[32..at];
  }

  /** FIPS 204 Algorithm 24, decoding a public key. */
  method PkDecode(pk: seq<Byte>, k: nat) returns (rho: seq<Byte>, t1: seq<seq<int>>)
    requires |pk| == 32 + 320 * k
    ensures rho == PkRho(pk) && t1 == PkT1(pk, k)
  {
    hide Unpacked, Split;
    rho := pk[..32];
    t1 := [];
    ghost var pieces := Split(pk[32..], 320, k);
    for i := 0 to k
      invariant |t1| == i
      invariant forall t :: 0 <= t < i ==> t1[t] == Unpacked(pieces[t], 10)
    {
      SplitAt(pk[32..], 320, k, i);
      assert pk[32..][320 * i..320 * i + 320] == pk[32 + 320 * i..32 + 320 * i + 320];
      var poly := SimpleBitUnpack(pk[32 + 320 * i..32 + 320 * i + 320], 10);
      t1 := t1 + [poly];
    }
  }

  // ----- private keys -----

  /** The parts of an expanded private key. */
  datatype SecretKey = SecretKey(rho: seq<Byte>, key: seq<Byte>, tr: seq<Byte>,
                                 s1: seq<seq<int>>, s2: seq<seq<int>>, t0: seq<seq<int>>)

  predicate IsSecretKey(e: SecretKey, p: ParameterSet) {
    && |e.rho| == 32 && |e.key| == 32 && |e.tr| == 64
    && IsVec(e.s1, p.l) && IsVec(e.s2, p.k) && IsVec(e.t0, p.k)
  }

  /** The parts are in the ranges the encoding can hold. */
  predicate SecretFits(e: SecretKey, p: ParameterSet)
    requires IsParameterSet(p)
  {
    && IsSecretKey(e, p)
    && VecFits(e.s1 + e.s2, p.eta, EtaBits(p)) && VecFits(e.t0, 4096, D)
  }

  function SkBytes(e: SecretKey, p: ParameterSet): (r: seq<Byte>)
    requires IsParameterSet(p) && SecretFits(e, p)
    ensures |r| == PrivateKeyLen(p)
  {
    e.rho + e.key + e.tr + VecBytes(e.s1 + e.s2, p.eta, EtaBits(p)) + VecBytes(e.t0, 4096, D)
  }

  /** The length of the packed s1 and s2. */
  function SecretsLen(p: ParameterSet): (n: nat) {
    32 * EtaBits(p) * (p.l + p.k)
  }

  function SkParts(sk: seq<Byte>, p: ParameterSet): (e: SecretKey)
    requires IsParameterSet(p) && |sk| == PrivateKeyLen(p)
    ensures IsSecretKey(e, p)
  {
    var n := SecretsLen(p);
    var s := BytesVec(sk[128..128 + n], p.eta, EtaBits(p), p.l + p.k);
    SecretKey(sk[..32], sk[32..64], sk[64..128], s[..p.l], s[p.l..], BytesVec(sk[128 + n..], 4096, D, p.k))
  }

  lemma VecLength(e: SecretKey, p: ParameterSet)
    requires IsSecretKey(e, p)
    ensures |e.s1| == p.l && |e.s2| == |e.t0| == p.k
  {
  }

  /** Decoding undoes encoding. */
  lemma SkRoundTrip(e: SecretKey, p: ParameterSet)
    requires IsParameterSet(p) && SecretFits(e, p)
    ensures SkParts(SkBytes(e, p), p) == e
  {
    hide VecBytes, BytesVec, VecFits, IsVec;
    var sk, n := SkBytes(e, p), SecretsLen(p);
    var s := e.s1 + e.s2;
    VecLength(e, p);
    VecRoundTrip(s, p.eta, EtaBits(p));
    VecRoundTrip(e.t0, 4096, D);
    assert sk[128..128 + n] == VecBytes(s, p.eta, EtaBits(p));
    assert sk[128 + n..] == VecBytes(e.t0, 4096, D);
    assert sk[..32] == e.rho && sk[32..64] == e.key && sk[64..128] == e.tr;
    assert s[..p.l] == e.s1 && s[p.l..] == e.s2;
  }

  /** Encoding undoes decoding. */
  lemma SkDecodeEncode(sk: seq<Byte>, p: ParameterSet)
    requires IsParameterSet(p) && |sk| == PrivateKeyLen(p)
    ensures SecretFits(SkParts(sk, p), p) && SkBytes(SkParts(sk, p), p) == sk
  {
    hide VecBytes, BytesVec, VecFits;
    var n := SecretsLen(p);
    var s := BytesVec(sk[128..128 + n], p.eta, EtaBits(p), p.l + p.k);
    var e := SkParts(sk, p);
    BytesRoundTrip(sk[128..128 + n], p.eta, EtaBits(p), p.l + p.k);
    BytesRoundTrip(sk[128 + n..], 4096, D, p.k);
    assert e.s1 + e.s2 == s;
    assert sk == sk[..32] + sk[32..64] + sk[64..128] + sk[128..128 + n] + sk[128 + n..];
  }

  method CopyInto(out: array<Byte>, at: nat, s: seq<Byte>)
    requires at + |s| <= out.Length
    modifies out
    ensures out[..] == old(out[..at]) + s + old(out[at + |s|..])
  {
    for i := 0 to |s|
      invariant out[..at] == old(out[..at]) && out[at..at + i] == s[..i] && out[at + |s|..] == old(out[at + |s|..])
    {
      out[at + i] := s[i];
    }
    assert out[..] == out[..at] + out[at..at + |s|] + out[at + |s|..];
  }

  /** FIPS 204 Algorithm 24. */
  method SkEncode(sk: array<Byte>, e: SecretKey, p: ParameterSet)
    requires IsParameterSet(p) && SecretFits(e, p) && sk.Length == PrivateKeyLen(p)
    modifies sk
    ensures sk[..] == SkBytes(e, p)
  {
    hide VecBytes, VecFits, IsVec;
    VecLength(e, p);
    CopyInto(sk, 0, e.rho);
    CopyInto(sk, 32, e.key);
    CopyInto(sk, 64, e.tr);
    assert sk[..128] == e.rho + e.key + e.tr;
    var at := PackVec(sk, 128, e.s1 + e.s2, p.eta, EtaBits(p));
    at := PackVec(sk, at, e.t0, 4096, D);
  }

  /** FIPS 204 Algorithm 25. */
  method SkDecode(sk: seq<Byte>, p: ParameterSet) returns (e: SecretKey)
    requires IsParameterSet(p) && |sk| == PrivateKeyLen(p)
    ensures e == SkParts(sk, p)
  {
    hide BytesVec;
    var n := SecretsLen(p);
    var s := UnpackVec(sk[128..128 + n], p.eta, EtaBits(p), p.l + p.k);
    var t0 := UnpackVec(sk[128 + n..], 4096, D, p.k);
    e := SecretKey(sk[..32], sk[32..64], sk[64..128], s[..p.l], s[p.l..], t0);
  }

  // ----- signatures -----

  datatype Signature = Signature(cTilde: seq<Byte>, z: seq<seq<int>>, h: seq<seq<int>>)

  predicate SignatureFits(s: Signature, p: ParameterSet)
    requires IsParameterSet(p)
  {
    && |s.cTilde| == CommitmentLen(p)
    && IsVec(s.z, p.l) && VecFits(s.z, p.gamma1, ZBits(p))
    && |s.h| == p.k && Hint.IsHint(s.h) && |Hint.AllOnes(s.h)| <= p.omega
  }

  function SigBytes(s: Signature, p: ParameterSet): (r: seq<Byte>)
    requires IsParameterSet(p) && SignatureFits(s, p)
    ensures |r| == SignatureLen(p)
  {
    s.cTilde + VecBytes(s.z, p.gamma1, ZBits(p)) + Hint.HintBytes(s.h, p.omega)
  }

  function ResponseLen(p: ParameterSet): (n: nat) {
    32 * ZBits(p) * p.l
  }

  /** The bytes of a signature that encode the hint. */
  function HintPart(sig: seq<Byte>, p: ParameterSet): (y: seq<Byte>)
    requires IsParameterSet(p) && |sig| == SignatureLen(p)
    ensures |y| == p.omega + p.k
  {
    sig[CommitmentLen(p) + ResponseLen(p)..]
  }

  /** A signature decodes exactly when its hint is well formed. */
  predicate SigAccepted(sig: seq<Byte>, p: ParameterSet)
    requires IsParameterSet(p) && |sig| == SignatureLen(p)
  {
    Hint.IsHintString(HintPart(sig, p), p.omega, p.k)
  }

  function SigParts(sig: seq<Byte>, p: ParameterSet): (s: Signature)
    requires IsParameterSet(p) && |sig| == SignatureLen(p) && SigAccepted(sig, p)
    ensures |s.cTilde| == CommitmentLen(p) && IsVec(s.z, p.l) && |s.h| == p.k && Hint.IsHint(s.h)
  {
    var c := CommitmentLen(p);
    Signature(sig[..c], BytesVec(sig[c..c + ResponseLen(p)], p.gamma1, ZBits(p), p.l),
              Hint.Decoded(HintPart(sig, p), p.omega, p.k))
  }

  /** Decoding an encoded signature gives its parts back. */
  lemma SigRoundTrip(s: Signature, p: ParameterSet)
    requires IsParameterSet(p) && SignatureFits(s, p)
    ensures SigAccepted(SigBytes(s, p), p) && SigParts(SigBytes(s, p), p) == s
  {
    hide VecBytes, BytesVec, VecFits, Hint.IsHintString, Hint.Decoded, Hint.HintBytes, Hint.AllOnes, Hint.IsHint;
    var sig, c := SigBytes(s, p), CommitmentLen(p);
    VecRoundTrip(s.z, p.gamma1, ZBits(p));
    assert sig[c..c + ResponseLen(p)] == VecBytes(s.z, p.gamma1, ZBits(p));
    assert HintPart(sig, p) == Hint.HintBytes(s.h, p.omega);
    assert sig[..c] == s.cTilde;
    Hint.UnpackOfPack(s.h, p.omega);
  }

  /** Encoding the parts of an accepted signature gives the same bytes: no two accepted signatures
      decode alike. */
  lemma SigDecodeEncode(sig: seq<Byte>, p: ParameterSet)
    requires IsParameterSet(p) && |sig| == SignatureLen(p) && SigAccepted(sig, p)
    ensures SignatureFits(SigParts(sig, p), p) && SigBytes(SigParts(sig, p), p) == sig
  {
    hide VecBytes, BytesVec, VecFits, Hint.IsHintString, Hint.Decoded, Hint.HintBytes, Hint.AllOnes;
    var c := CommitmentLen(p);
    BytesRoundTrip(sig[c..c + ResponseLen(p)], p.gamma1, ZBits(p), p.l);
    Hint.PackOfUnpack(HintPart(sig, p), p.omega, p.k);
    assert sig == sig[..c] + sig[c..c + ResponseLen(p)] + sig[c + ResponseLen(p)..];
  }

  lemma ResponseSize(s: Signature, p: ParameterSet)
    requires IsParameterSet(p) && SignatureFits(s, p)
    ensures |s.z| == p.l && |s.h| == p.k && 1 <= ZBits(p) <= 20 && 0 <= p.gamma1 < Q && p.omega < 256
    ensures SignatureLen(p) == CommitmentLen(p) + 32 * ZBits(p) * p.l + p.omega + p.k
  {
  }

  /** FIPS 204 Algorithm 26. */
  method SigEncode(s: Signature, p: ParameterSet) returns (sig: seq<Byte>)
    requires IsParameterSet(p) && SignatureFits(s, p)
    ensures sig == SigBytes(s, p)
  {
    hide VecBytes, VecFits, IsVec, Hint.HintBytes, Hint.AllOnes, Hint.IsHint;
    ResponseSize(s, p);
    hide SignatureLen, ZBits;
    var out := new Byte[SignatureLen(p)](_ => 0);
    CopyInto(out, 0, s.cTilde);
    assert out[..CommitmentLen(p)] == s.cTilde;
    var at := PackVec(out, CommitmentLen(p), s.z, p.gamma1, ZBits(p));
    assert out[..at] == s.cTilde + VecBytes(s.z, p.gamma1, ZBits(p));
    Hint.HintBitPack(out, at, s.h, p.omega);
    assert out[at + p.omega + p.k..] == [];
    sig := out[..];
  }

  /** FIPS 204 Algorithm 27. */
  method SigDecode(sig: seq<Byte>, p: ParameterSet) returns (r: Option<Signature>)
    requires IsParameterSet(p) && |sig| == SignatureLen(p)
    ensures r == if SigAccepted(sig, p) then Some(SigParts(sig, p)) else None
  {
    hide BytesVec, Hint.IsHintString, Hint.Decoded;
    var c := CommitmentLen(p);
    var z := UnpackVec(sig[c..c + ResponseLen(p)], p.gamma1, ZBits(p), p.l);
    var h := Hint.HintBitUnpack(HintPart(sig, p), p.omega, p.k);
    if h == None {
      return None;
    }
    return Some(Signature(sig[..c], z, h.value));
  }

  // ----- the commitment -----

  predicate IsW1(w1: seq<seq<int>>, p: ParameterSet) {
    |w1| == p.k && forall i :: 0 <= i < p.k ==> |w1[i]| == N && AreDigits(w1[i], Pow2(W1Bits(p)))
  }

  function W1Pieces(w1: seq<seq<int>>, p: ParameterSet): (r: seq<seq<Byte>>)
    requires IsW1(w1, p)
  {
    seq(p.k, i requires 0 <= i < p.k => Packed(w1[i], W1Bits(p)))
  }

  /** FIPS 204 Algorithm 28: the bytes absorbed for w1. */
  function W1Bytes(w1: seq<seq<int>>, p: ParameterSet): (r: seq<Byte>)
    requires IsW1(w1, p)
  {
    Concat(W1Pieces(w1, p))
  }

  /** The pieces absorbed one by one make up W1Bytes. */
  method W1Encode(w1: seq<seq<int>>, p: ParameterSet) returns (absorbed: seq<Byte>)
    requires IsParameterSet(p) && IsW1(w1, p)
    ensures absorbed == W1Bytes(w1, p)
  {
    hide Packed, Concat, AreDigits, Pow2;
    var bits := W1Bits(p);
    var out := new Byte[32 * bits];
    ghost var pieces := W1Pieces(w1, p);
    absorbed := [];
    NothingConcat(pieces);
    for i := 0 to p.k
      invariant absorbed == Concat(pieces[..i])
    {
      SimpleBitPack(w1[i], bits, out, 0);
      assert pieces[..i + 1] == pieces[..i] + [pieces[i]];
      ConcatSnoc(pieces[..i], pieces[i]);
      assert out[..] == pieces[i];
      absorbed := absorbed + out[..];
    }
    assert pieces[..p.k] == pieces;
  }
}
