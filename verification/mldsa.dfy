/** The interface of macula-mldsa: signing and verifying a message under a context string, with either
    form of private key. */
module MlDsa {
  import opened Machine
  import opened MlDsaParams
  import opened MlDsaCodec
  import opened MlDsaScheme
  import opened MlDsaCompleteness
  import opened MlDsaSigning
  import opened MlDsaInternal
  import opened MlDsaSign

  datatype PrivateKey = Expanded(bytes: seq<Byte>) | Seed(xi: seq<Byte>)

  /** A seed is a [u8; 32] by its type; an expanded key is any string of bytes. */
  predicate IsPrivateKey(key: PrivateKey) {
    key.Seed? ==> |key.xi| == 32
  }

  predicate RightLength(key: PrivateKey, p: ParameterSet) {
    key.Expanded? ==> |key.bytes| == PrivateKeyLen(p)
  }

  /** M' = 0 || |ctx| || ctx || message */
  function Formatted(context: seq<Byte>, message: seq<Byte>): (r: seq<Byte>)
    requires |context| <= 255
  {
    [0, |context|] + context + message
  }

  /** No two pairs of context and message format alike. */
  lemma FormattedInjective(c: seq<Byte>, m: seq<Byte>, c': seq<Byte>, m': seq<Byte>)
    requires |c| <= 255 && |c'| <= 255 && Formatted(c, m) == Formatted(c', m')
    ensures c == c' && m == m'
  {
    var a, b := Formatted(c, m), Formatted(c', m');
    assert a[1] == |c| && b[1] == |c'|;
    assert a[2..2 + |c|] == c && a[2 + |c|..] == m;
    assert b[2..2 + |c|] == c' && b[2 + |c|..] == m';
  }

  /** mu = H(tr || M', 64) */
  function MuOf(h: Hashes, tr: seq<Byte>, context: seq<Byte>, message: seq<Byte>): (mu: seq<Byte>)
    requires |context| <= 255
    ensures |mu| == 64
  {
    H(h, tr + Formatted(context, message), 64)
  }

  /** What a private key stands for, whichever form it arrives in. */
  ghost function Parts(h: Hashes, p: ParameterSet, key: PrivateKey): (e: SecretKey)
    requires IsParameterSet(p) && SamplersEnd(h, p) && IsPrivateKey(key) && RightLength(key, p)
    ensures IsSecretKey(e, p)
  {
    match key
    case Expanded(bytes) => SkParts(bytes, p)
    case Seed(xi) => SecretOf(h, p, xi)
  }

  /** The run of the signing loop that a call of sign starts. */
  ghost function RunOf(h: Hashes, p: ParameterSet, key: PrivateKey, message: seq<Byte>, context: seq<Byte>,
                       rnd: seq<Byte>): (x: Run)
    requires IsParameterSet(p) && SamplersEnd(h, p) && IsPrivateKey(key) && RightLength(key, p) && |context| <= 255
    ensures IsRun(x)
  {
    Sizes(p);
    var e := Parts(h, p, key);
    Run(h, p, e, MuOf(h, e.tr, context, message), rnd, p.gamma1 - Beta(p))
  }

  /** The expanded private key, whichever form it arrived in. */
  method WithExpanded(h: Hashes, p: ParameterSet, key: PrivateKey) returns (r: Result<seq<Byte>>)
    requires IsParameterSet(p) && SamplersEnd(h, p) && IsPrivateKey(key)
    ensures !RightLength(key, p) ==> r == Err(WrongLength)
    ensures RightLength(key, p) ==> r.Ok? && |r.value| == PrivateKeyLen(p) && SkParts(r.value, p) == Parts(h, p, key)
  {
    hide SamplersEnd, SkParts, SecretOf, PublicKeyOf, SkBytes, SecretFits, IsSecretKey, Consistent, OwnPublicKey;
    match key {
      case Expanded(bytes) =>
        r := if |bytes| == PrivateKeyLen(p) then Ok(bytes) else Err(WrongLength);
      case Seed(xi) =>
        var pk, sk := KeyGen(h, p, xi);
        KeyFormsAgree(h, p, xi);
        r := Ok(sk);
    }
  }

  lemma StoredTr(sk: seq<Byte>, p: ParameterSet)
    requires IsParameterSet(p) && |sk| == PrivateKeyLen(p)
    ensures |sk| >= 128 && SkParts(sk, p).tr == sk[64..128]
  {
  }

  /** The run is read off the expanded key's bytes. */
  lemma RunOfExpanded(h: Hashes, p: ParameterSet, key: PrivateKey, message: seq<Byte>, context: seq<Byte>,
                      rnd: seq<Byte>, sk: seq<Byte>)
    requires IsParameterSet(p) && SamplersEnd(h, p) && IsPrivateKey(key) && RightLength(key, p) && |context| <= 255
    requires |sk| == PrivateKeyLen(p) && SkParts(sk, p) == Parts(h, p, key)
    ensures |sk| >= 128 && Beta(p) >= 0
    ensures Run(h, p, SkParts(sk, p), H(h, sk[64..128] + Formatted(context, message), 64), rnd, p.gamma1 - Beta(p))
         == RunOf(h, p, key, message, context, rnd)
  {
    hide SamplersEnd, SkParts, Parts, H, Formatted, IsSecretKey;
    StoredTr(sk, p);
    Sizes(p);
  }

  /** FIPS 204 Algorithm 2 with rnd supplied. A context over 255 bytes is refused before the key is looked at. */
  method SignMessage(h: Hashes, p: ParameterSet, key: PrivateKey, message: seq<Byte>, context: seq<Byte>,
                     rnd: seq<Byte>)
    returns (r: Result<seq<Byte>>)
    requires IsParameterSet(p) && SamplersEnd(h, p) && IsPrivateKey(key) && |rnd| == 32
    requires |context| <= 255 && RightLength(key, p) ==> SigningEnds(RunOf(h, p, key, message, context, rnd))
    ensures |context| > 255 ==> r == Err(ContextTooLong)
    ensures |context| <= 255 && !RightLength(key, p) ==> r == Err(WrongLength)
    ensures |context| <= 255 && RightLength(key, p) ==> r == Ok(Released(RunOf(h, p, key, message, context, rnd)))
  {
    hide SamplersEnd, SigningEnds, SkParts, Parts, IsSecretKey, H, Released, RunOf, IsRun, Formatted, FirstReleased;
    if |context| > 255 {
      return Err(ContextTooLong);
    }
    var expanded := WithExpanded(h, p, key);
    if expanded.Err? {
      return expanded;
    }
    var sk := expanded.value;
    RunOfExpanded(h, p, key, message, context, rnd, sk);
    var mu := H(h, sk[64..128] + Formatted(context, message), 64);
    var sig, attempts := SignGivenMu(h, p, sk, mu, rnd, p.gamma1 - Beta(p));
    return Ok(sig);
  }

  /** What verify decides about a signature on a message. */
  ghost predicate Accepts(h: Hashes, p: ParameterSet, pk: seq<Byte>, message: seq<Byte>, sig: seq<Byte>,
                          context: seq<Byte>)
    requires IsParameterSet(p) && SamplersEnd(h, p) && |context| <= 255
  {
    && |pk| == PublicKeyLen(p) && |sig| == SignatureLen(p)
    && Verifies(h, p, pk, MuOf(h, H(h, pk, 64), context, message), sig)
  }

  /** FIPS 204 Algorithm 3: an error only for the context, false for everything else that is wrong. */
  method Verify(h: Hashes, p: ParameterSet, pk: seq<Byte>, message: seq<Byte>, sig: seq<Byte>, context: seq<Byte>)
    returns (r: Result<bool>)
    requires IsParameterSet(p) && SamplersEnd(h, p)
    ensures |context| > 255 ==> r == Err(ContextTooLong)
    ensures |context| <= 255 ==> r == Ok(Accepts(h, p, pk, message, sig, context))
  {
    hide SamplersEnd, Verifies, H;
    if |context| > 255 {
      return Err(ContextTooLong);
    }
    if |pk| != PublicKeyLen(p) || |sig| != SignatureLen(p) {
      return Ok(false);
    }
    var tr := H(h, pk, 64);
    var mu := H(h, tr + Formatted(context, message), 64);
    var ok := VerifyGivenMu(h, p, pk, mu, sig);
    return Ok(ok);
  }

  /** The public key of either form of private key: what public_key returns. */
  method PublicKey(h: Hashes, p: ParameterSet, key: PrivateKey) returns (r: Result<seq<Byte>>)
    requires IsParameterSet(p) && SamplersEnd(h, p) && IsPrivateKey(key)
    ensures !RightLength(key, p) ==> r == Err(WrongLength)
    ensures RightLength(key, p) ==>
      var e := Parts(h, p, key);
      r == if Consistent(h, p, e) then Ok(OwnPublicKey(h, p, e)) else Err(InconsistentPrivateKey)
  {
    hide SamplersEnd, SkParts, SecretOf, SkBytes, SecretFits, Consistent, OwnPublicKey;
    match key {
      case Expanded(bytes) =>
        r := PublicKeyOfExpanded(h, p, bytes);
      case Seed(xi) =>
        var pk, sk := KeyGen(h, p, xi);
        KeyFormsAgree(h, p, xi);
        r := Ok(pk);
    }
  }

  lemma RunParts(h: Hashes, p: ParameterSet, key: PrivateKey, message: seq<Byte>, context: seq<Byte>, rnd: seq<Byte>)
    requires IsParameterSet(p) && SamplersEnd(h, p) && IsPrivateKey(key) && RightLength(key, p) && |context| <= 255
    ensures var x := RunOf(h, p, key, message, context, rnd);
      x.h == h && x.p == p && x.e == Parts(h, p, key) && x.zBound == p.gamma1 - Beta(p)
  {
    hide SamplersEnd, Parts, H;
  }

  /** A consistent key signs and is verified under the same mu. */
  lemma SameMu(h: Hashes, p: ParameterSet, key: PrivateKey, message: seq<Byte>, context: seq<Byte>, rnd: seq<Byte>,
               sig: seq<Byte>)
    requires IsParameterSet(p) && SamplersEnd(h, p) && IsPrivateKey(key) && RightLength(key, p) && |context| <= 255
    requires Consistent(h, p, Parts(h, p, key)) && |sig| == SignatureLen(p)
    ensures var x := RunOf(h, p, key, message, context, rnd);
      x.e == Parts(h, p, key)
      && (Accepts(h, p, OwnPublicKey(h, p, x.e), message, sig, context)
          <==> Verifies(h, p, OwnPublicKey(h, p, x.e), x.mu, sig))
  {
    hide SamplersEnd, Parts, H, Verifies, IsSecretKey, PublicOf, Beta, SignatureLen, Formatted;
  }

  /** Whatever the message, the context and the randomness, what sign returns is accepted under the key that
      public_key returns if and only if the released attempt's commitment is kept. */
  lemma SignedIsAccepted(h: Hashes, p: ParameterSet, key: PrivateKey, message: seq<Byte>, context: seq<Byte>,
                         rnd: seq<Byte>)
    requires IsParameterSet(p) && SamplersEnd(h, p) && IsPrivateKey(key) && RightLength(key, p) && |context| <= 255
    requires Consistent(h, p, Parts(h, p, key)) && SigningEnds(RunOf(h, p, key, message, context, rnd))
    ensures var x := RunOf(h, p, key, message, context, rnd);
      Accepts(h, p, OwnPublicKey(h, p, x.e), message, Released(x), context)
      <==> CommitmentKept(h, p, x.mu, AttemptAt(x, FirstReleased(x)))
  {
    hide SamplersEnd, SigningEnds, Parts, AttemptAt, Releasable, Verifies, Accepts, Released, CommitmentKept,
         FirstReleased, ResponseInBound, Beta, RunOf, Consistent, OwnPublicKey, IsAttempt;
    var x := RunOf(h, p, key, message, context, rnd);
    RunParts(h, p, key, message, context, rnd);
    SameMu(h, p, key, message, context, rnd, Released(x));
    ReleasedRunVerifies(x);
    ReleasedInBound(AttemptAt(x, FirstReleased(x)), p);
  }

  /** A condition on the key alone that is enough: its s2 is in range. */
  lemma SmallSecretIsAccepted(h: Hashes, p: ParameterSet, key: PrivateKey, message: seq<Byte>, context: seq<Byte>,
                              rnd: seq<Byte>)
    requires IsParameterSet(p) && SamplersEnd(h, p) && IsPrivateKey(key) && RightLength(key, p) && |context| <= 255
    requires Consistent(h, p, Parts(h, p, key)) && SmallS2(Parts(h, p, key), p)
    requires SigningEnds(RunOf(h, p, key, message, context, rnd))
    ensures var x := RunOf(h, p, key, message, context, rnd);
      Accepts(h, p, OwnPublicKey(h, p, x.e), message, Released(x), context)
  {
    hide SamplersEnd, SigningEnds, Parts, H, AttemptOf, Releasable, Accepts, Released, Consistent, SmallS2,
         CommitmentKept;
    var x := RunOf(h, p, key, message, context, rnd);
    SignedIsAccepted(h, p, key, message, context, rnd);
    SmallSecretKeeps(h, p, x.e, x.mu, RhoPP(h, x.e, rnd, x.mu), Kappa(p, FirstReleased(x)), x.zBound);
  }

  /** In particular with every seed, with no condition on the key. */
  lemma SignedWithSeed(h: Hashes, p: ParameterSet, xi: seq<Byte>, message: seq<Byte>, context: seq<Byte>,
                       rnd: seq<Byte>)
    requires IsParameterSet(p) && SamplersEnd(h, p) && |xi| == 32 && |context| <= 255
    requires SigningEnds(RunOf(h, p, Seed(xi), message, context, rnd))
    ensures Accepts(h, p, PublicKeyOf(h, p, xi), message, Released(RunOf(h, p, Seed(xi), message, context, rnd)),
      context)
  {
    hide SamplersEnd, SigningEnds, SecretOf, Consistent, SmallS2, Accepts, Released, OwnPublicKey, SecretFits;
    GeneratedSecrets(h, p, xi);
    SmallSecretIsAccepted(h, p, Seed(xi), message, context, rnd);
  }
}
