/** What it means for ML-DSA's verification to accept an arbitrary string: FIPS 204 Algorithm 8 read off the bytes of
    the signature. */
module MlDsaAcceptance {
  import opened Machine
  import opened Modular
  import opened Polynomials
  import opened Chunks
  import opened Packing
  import opened MlDsaArith
  import opened MlDsaParams
  import opened MlDsaCodec
  import opened MlDsaScheme
  import opened MlDsaCompleteness
  import opened Streams
  import P = MlDsaPack
  import Hint = MlDsaHint

  lemma ReadsIs(r: seq<Byte>, h: Hashes, x: seq<Byte>)
    ensures H(h, x, |r|) == r <==> Reads(r, h.shake256(x), 0)
  {
    if Reads(r, h.shake256(x), 0) {
      assert H(h, x, |r|) == r;
    }
  }

  /** The signature decodes to s. */
  predicate DecodesTo(sig: seq<Byte>, p: ParameterSet, s: Signature)
    requires IsParameterSet(p) && |sig| == SignatureLen(p)
    ensures DecodesTo(sig, p, s) ==>
      |s.cTilde| == CommitmentLen(p) && IsVec(s.z, p.l) && |s.h| == p.k && Hint.IsHint(s.h)
  {
    SigAccepted(sig, p) && SigParts(sig, p) == s
  }

  /** mu and the commitment recovered from the signature's parts. */
  ghost function RecoveredInput(h: Hashes, p: ParameterSet, pk: seq<Byte>, mu: seq<Byte>, s: Signature): (x: seq<Byte>)
    requires IsParameterSet(p) && SamplersEnd(h, p) && |pk| == PublicKeyLen(p)
    requires |s.cTilde| == CommitmentLen(p) && IsVec(s.z, p.l) && |s.h| == p.k && Hint.IsHint(s.h)
  {
    hide SamplersEnd, IsVec, Hint.IsHint;
    mu + W1Bytes(RecoveredW1(h, p, pk, s), p)
  }

  /** A string that decodes is accepted exactly when every coefficient of its response is below gamma1 - tau eta and its
      first lambda / 4 bytes are SHAKE256 of mu and the recovered commitment. */
  lemma VerifiesExactly(h: Hashes, p: ParameterSet, pk: seq<Byte>, mu: seq<Byte>, sig: seq<Byte>, s: Signature)
    requires IsParameterSet(p) && SamplersEnd(h, p) && |pk| == PublicKeyLen(p) && |sig| == SignatureLen(p)
    requires DecodesTo(sig, p, s)
    ensures |s.cTilde| == p.lambda / 4 && s.cTilde <= sig
    ensures Verifies(h, p, pk, mu, sig)
      <==> ResponseInBound(s.z, p) && Reads(s.cTilde, h.shake256(RecoveredInput(h, p, pk, mu, s)), 0)
  {
    hide SamplersEnd, Hint.IsHintString, RecoveredW1, W1Bytes, VecBelow, ResponseInBound, Beta, BytesVec, Hint.Decoded,
         SigAccepted, IsW1, IsVec, Reads;
    InBoundIs(s.z, p);
    ReadsIs(s.cTilde, h, RecoveredInput(h, p, pk, mu, s));
  }

  /** And one that does not decode is refused. */
  lemma AcceptedDecodes(h: Hashes, p: ParameterSet, pk: seq<Byte>, mu: seq<Byte>, sig: seq<Byte>)
    requires IsParameterSet(p) && SamplersEnd(h, p) && |pk| == PublicKeyLen(p) && |sig| == SignatureLen(p)
    requires Verifies(h, p, pk, mu, sig)
    ensures exists s :: DecodesTo(sig, p, s)
  {
    hide SamplersEnd, RecoveredW1, SigAccepted, SigParts;
    assert DecodesTo(sig, p, SigParts(sig, p));
  }

  lemma Slice(s: seq<Byte>, from: nat, to: nat, lo: nat, hi: nat)
    requires from <= to <= |s| && lo <= hi && from + hi <= to
    ensures s[from..to][lo..hi] == s[from + lo..from + hi]
  {
    var l, r := s[from..to][lo..hi], s[from + lo..from + hi];
    assert |l| == |r| && forall k :: 0 <= k < |l| ==> l[k] == r[k];
  }

  /** The response is read from its bytes polynomial by polynomial. */
  lemma ResponseAt(sig: seq<Byte>, p: ParameterSet, i: nat, at: int)
    requires IsParameterSet(p) && |sig| == SignatureLen(p) && SigAccepted(sig, p) && i < p.l
    requires at == CommitmentLen(p) + 32 * ZBits(p) * i
    ensures 0 <= at && at + 32 * ZBits(p) <= |sig| && 0 <= p.gamma1 < Q && ZBits(p) <= 20
    ensures SigParts(sig, p).z[i] == P.BitUnpacked(sig[at..at + 32 * ZBits(p)], p.gamma1, ZBits(p))
  {
    hide P.BitUnpacked, Split, Hint.IsHintString, Hint.Decoded;
    var c, n := CommitmentLen(p), 32 * ZBits(p);
    var bytes := sig[c..c + ResponseLen(p)];
    SplitAt(bytes, n, p.l, i);
    Slice(sig, c, c + ResponseLen(p), n * i, n * i + n);
  }

  lemma SignedSize(b: int, x: int)
    requires 0 <= x && b - Q / 2 <= x <= b + Q / 2 && 0 <= b < Q
    ensures -Q < b - x < Q && CenteredAbs(FromSigned(b - x)) == if x <= b then b - x else x - b
  {
    var v := b - x;
    var c := FromSigned(v);
    assert c == if 0 <= v then v else v + Q;
    assert CenteredAbs(c) == if c <= Q / 2 then c else Q - c;
  }

  lemma Unsigned(bytes: seq<Byte>, b: nat, j: nat)
    requires b <= 20 && j < N
    ensures 0 <= Unpacked(bytes, b)[j] < 0x10_0000
  {
    hide Pow2, Unpacked;
    P.Pow2Twenty(b);
  }

  /** Every number x in the response bytes of an accepted signature stands for a coefficient gamma1 - x of size below
      gamma1 - tau eta. */
  lemma AcceptedResponse(h: Hashes, p: ParameterSet, pk: seq<Byte>, mu: seq<Byte>, sig: seq<Byte>, i: nat, at: int,
                         j: nat)
    requires IsParameterSet(p) && SamplersEnd(h, p) && |pk| == PublicKeyLen(p) && |sig| == SignatureLen(p)
    requires Verifies(h, p, pk, mu, sig) && i < p.l && j < N && at == CommitmentLen(p) + 32 * ZBits(p) * i
    ensures 0 <= at && at + 32 * ZBits(p) <= |sig|
    ensures var x := Unpacked(sig[at..at + 32 * ZBits(p)], ZBits(p))[j];
      p.tau * p.eta - p.gamma1 < p.gamma1 - x < p.gamma1 - p.tau * p.eta
  {
    hide SamplersEnd, Hint.IsHintString, RecoveredW1, Commitment, VecBelow, Beta, SigParts, Unpacked, CenteredAbs,
         FromSigned, SignatureLen, CommitmentLen, SigAccepted, ZBits, Reads, RecoveredInput;
    VerifiesExactly(h, p, pk, mu, sig, SigParts(sig, p));
    ResponseAt(sig, p, i, at);
    var bytes, b := sig[at..at + 32 * ZBits(p)], ZBits(p);
    var x := Unpacked(bytes, b)[j];
    Unsigned(bytes, b, j);
    assert SigParts(sig, p).z[i][j] == FromSigned(p.gamma1 - x);
    SignedSize(p.gamma1, x);
  }
}
