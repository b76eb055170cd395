/** Whole runs of the signing loop: which attempt is released, which mask counters each attempt uses, and
    what every released signature satisfies. */
module MlDsaSigning {
  import opened Machine
  import Modular
  import opened MlDsaParams
  import opened MlDsaCodec
  import opened MlDsaScheme
  import opened MlDsaCompleteness
  import Hint = MlDsaHint

  /** What one call of the loop works on. */
  datatype Run = Run(h: Hashes, p: ParameterSet, e: SecretKey, mu: seq<Byte>, rnd: seq<Byte>, zBound: int)

  ghost predicate IsRun(x: Run) {
    IsParameterSet(x.p) && SamplersEnd(x.h, x.p) && IsSecretKey(x.e, x.p) && x.zBound <= x.p.gamma1
  }

  /** The counter attempt n starts from: a u16 that wraps. */
  function Kappa(p: ParameterSet, n: nat): (kappa: nat)
    ensures kappa < 0x1_0000
  {
    n * p.l % 0x1_0000
  }

  /** Attempt n of the run. */
  ghost function AttemptAt(x: Run, n: nat): (t: Attempt)
    requires IsRun(x)
    ensures IsAttempt(t, x.p)
  {
    AttemptOf(x.h, x.p, x.e, x.mu, RhoPP(x.h, x.e, x.rnd, x.mu), Kappa(x.p, n))
  }

  ghost predicate ReleasedAt(x: Run, n: nat)
    requires IsRun(x)
  {
    Releasable(AttemptAt(x, n), x.p, x.zBound)
  }

  /** Some attempt is released: exactly then the loop returns. */
  ghost predicate SigningEnds(x: Run)
    requires IsRun(x)
  {
    exists n: nat :: ReleasedAt(x, n)
  }

  /** Attempt r is released and none before it is. */
  ghost predicate IsFirst(x: Run, r: nat)
    requires IsRun(x)
  {
    ReleasedAt(x, r) && forall m: nat :: m < r ==> !ReleasedAt(x, m)
  }

  lemma {:induction false} SomeIsFirst(x: Run, k: nat)
    requires IsRun(x) && ReleasedAt(x, k)
    ensures exists r: nat :: IsFirst(x, r)
    decreases k
  {
    hide IsRun, ReleasedAt;
    if forall m: nat :: m < k ==> !ReleasedAt(x, m) {
      assert IsFirst(x, k);
    } else {
      var m: nat :| m < k && ReleasedAt(x, m);
      SomeIsFirst(x, m);
    }
  }

  /** The first attempt that is released. */
  ghost function FirstReleased(x: Run): (r: nat)
    requires IsRun(x) && SigningEnds(x)
    ensures IsFirst(x, r)
  {
    hide IsRun, ReleasedAt, IsFirst;
    var k: nat :| ReleasedAt(x, k);
    SomeIsFirst(x, k);
    var r: nat :| IsFirst(x, r);
    r
  }

  /** The signature the run releases. */
  ghost function Released(x: Run): (sig: seq<Byte>)
    requires IsRun(x) && SigningEnds(x)
    ensures |sig| == SignatureLen(x.p)
  {
    hide SamplersEnd, SigningEnds, AttemptOf;
    var t := AttemptAt(x, FirstReleased(x));
    ReleasedFits(t, x.p, x.zBound);
    SigBytes(SignatureOf(t), x.p)
  }

  /** No released signature breaks a bound of Algorithm 7: it has the set's length, it decodes, its
      response is below the bound and its hint has at most omega ones. */
  lemma ReleasedSignature(x: Run)
    requires IsRun(x) && SigningEnds(x)
    ensures var sig := Released(x);
      && |sig| == SignatureLen(x.p) && SigAccepted(sig, x.p)
      && var s := SigParts(sig, x.p);
      && VecBelow(s.z, x.zBound) && |Hint.AllOnes(s.h)| <= x.p.omega
      && VecBelow(AttemptAt(x, FirstReleased(x)).ct0, x.p.gamma2)
  {
    hide SamplersEnd, SigningEnds, AttemptOf, VecBelow, SigBytes, SigParts, SigAccepted, Hint.AllOnes, IsAttempt;
    var t := AttemptAt(x, FirstReleased(x));
    ReleasedFits(t, x.p, x.zBound);
    SigRoundTrip(SignatureOf(t), x.p);
  }

  /** What a run with any bound on the response releases verifies, for every key whose parts agree, if and only if
      the response keeps the bound of verification and the commitment is kept. */
  lemma ReleasedRunVerifies(x: Run)
    requires IsRun(x) && SigningEnds(x) && Consistent(x.h, x.p, x.e)
    ensures var t := AttemptAt(x, FirstReleased(x));
      Verifies(x.h, x.p, OwnPublicKey(x.h, x.p, x.e), x.mu, Released(x))
      <==> ResponseInBound(t.z, x.p) && CommitmentKept(x.h, x.p, x.mu, t)
  {
    hide SamplersEnd, SigningEnds, AttemptOf, Releasable, Verifies, SigBytes, SignatureFits, CommitmentKept,
         ResponseInBound, Consistent, OwnPublicKey, RhoPP, Kappa;
    var n := FirstReleased(x);
    ReleasedVerifies(x.h, x.p, x.e, x.mu, RhoPP(x.h, x.e, x.rnd, x.mu), Kappa(x.p, n), x.zBound);
  }

  // ----- the counters -----

  /** Counter number r of attempt n, as it is hashed. */
  function Counter(p: ParameterSet, n: nat, r: nat): (c: nat)
    ensures c < 0x1_0000
  {
    (Kappa(p, n) + r) % 0x1_0000
  }

  /** Attempt n uses the counters n l, ..., n l + l - 1 mod 2^16. */
  lemma CounterIs(p: ParameterSet, n: nat, r: nat)
    ensures Counter(p, n, r) == (n * p.l + r) % 0x1_0000
  {
    Modular.ModAdd(0x1_0000, n * p.l, r);
  }

  /** How many attempts the counter lasts. */
  function Lasts(p: ParameterSet): nat
    requires p.l > 0
  {
    0x1_0000 / p.l
  }

  lemma DistinctSeeds(rhoPP: seq<Byte>, a: nat, b: nat)
    requires a < 0x1_0000 && b < 0x1_0000 && a != b
    ensures rhoPP + LittleEndian2(a) != rhoPP + LittleEndian2(b)
  {
    var u, v := rhoPP + LittleEndian2(a), rhoPP + LittleEndian2(b);
    assert u[|rhoPP|] == a % 256 && u[|rhoPP| + 1] == a / 256;
    assert v[|rhoPP|] == b % 256 && v[|rhoPP| + 1] == b / 256;
  }

  lemma InFirstCycle(p: ParameterSet, n: nat, r: nat)
    requires IsParameterSet(p) && n < Lasts(p) && r < p.l
    ensures n * p.l + r < 0x1_0000
  {
    if p == ML_DSA_44 { assert n * 4 + r < 0x1_0000; }
    else if p == ML_DSA_65 { assert n * 5 + r < 0x1_0000; }
    else { assert n * 7 + r < 0x1_0000; }
  }

  lemma DistinctCounters(l: nat, n: nat, r: nat, m: nat, s: nat)
    requires r < l && s < l && (n, r) != (m, s)
    ensures n * l + r != m * l + s
  {
    if n < m {
      Scaled(n + 1, m, l);
    } else if m < n {
      Scaled(m + 1, n, l);
    }
  }

  /** No two masks among the first Lasts(p) attempts are squeezed from the same input. */
  lemma MasksAreFresh(p: ParameterSet, rhoPP: seq<Byte>, n: nat, r: nat, m: nat, s: nat)
    requires IsParameterSet(p) && n < Lasts(p) && m < Lasts(p) && r < p.l && s < p.l && (n, r) != (m, s)
    ensures Counter(p, n, r) != Counter(p, m, s)
    ensures rhoPP + LittleEndian2(Counter(p, n, r)) != rhoPP + LittleEndian2(Counter(p, m, s))
  {
    hide Counter, Lasts, LittleEndian2;
    CounterIs(p, n, r);
    CounterIs(p, m, s);
    InFirstCycle(p, n, r);
    InFirstCycle(p, m, s);
    DistinctCounters(p.l, n, r, m, s);
    DistinctSeeds(rhoPP, Counter(p, n, r), Counter(p, m, s));
  }

  /** The very next attempt reuses a counter: Lasts(p) is exact. */
  lemma MasksRepeat(p: ParameterSet)
    requires IsParameterSet(p)
    ensures exists r: nat :: r < p.l && Counter(p, Lasts(p), r) == Counter(p, 0, 0)
  {
    var r := 0x1_0000 - Lasts(p) * p.l;
    CounterIs(p, Lasts(p), r);
    CounterIs(p, 0, 0);
    assert r < p.l && Counter(p, Lasts(p), r) == 0;
  }

  lemma Periodic(p: ParameterSet, n: nat)
    requires n >= 0x1_0000
    ensures Kappa(p, n - 0x1_0000) == Kappa(p, n)
  {
    var m := n - 0x1_0000;
    calc {
      n * p.l;
      m * p.l + 0x1_0000 * p.l;
    }
    Modular.ModShift(0x1_0000, m * p.l, p.l);
  }

  lemma SameAttempt(x: Run, n: nat)
    requires IsRun(x) && n >= 0x1_0000
    ensures ReleasedAt(x, n - 0x1_0000) == ReleasedAt(x, n)
  {
    hide IsRun, AttemptOf, Releasable, Kappa;
    Periodic(x.p, n);
  }

  /** The counter decides the attempt, so the run is periodic and a loop that returns at all does so within
      2^16 attempts: the u32 that counts them cannot overflow. */
  lemma EndsSoon(x: Run)
    requires IsRun(x) && SigningEnds(x)
    ensures FirstReleased(x) < 0x1_0000
  {
    hide IsRun, ReleasedAt, SigningEnds;
    var n := FirstReleased(x);
    if n >= 0x1_0000 {
      SameAttempt(x, n);
    }
  }
}
