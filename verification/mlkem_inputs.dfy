/** Every string that ML-KEM hashes, byte by byte: what stands where, which bytes of the output are read, and that
    different uses hash different strings. Nothing is assumed of the hash functions. */
module MlKemInputs {
  import opened Machine
  import opened Modular
  import opened Polynomials
  import opened Digits
  import opened Bits
  import opened Norms
  import opened Streams
  import opened MlKemArith
  import opened MlKemNtt
  import opened MlKemParams
  import opened MlKemSample
  import opened MlKemScheme
  import opened MlKem

  // ----- key generation: Algorithm 13 -----

  /** d || k */
  predicate IsSeedInput(s: seq<Byte>, d: seq<Byte>, p: ParameterSet) {
    |s| == 33 && s[..32] == d && s[32] == p.k
  }

  lemma LastByte(s: seq<Byte>, front: seq<Byte>, b: Byte)
    requires |s| == 33 && s[..32] == front && s[32] == b
    ensures s == front + [b]
  {
  }

  /** rho and sigma are the halves of SHA3-512(d || k). */
  lemma SeedsRead(h: Hashes, p: ParameterSet, d: seq<Byte>, s: seq<Byte>)
    requires IsParameterSet(p) && IsSeedInput(s, d, p)
    ensures var (rho, sigma) := SeedsOf(h, p, d); Reads(rho, h.sha3_512(s), 0) && Reads(sigma, h.sha3_512(s), 32)
  {
    LastByte(s, d, p.k);
  }

  /** No two parameter sets expand the same string. */
  lemma SetsDiffer(s: seq<Byte>, d: seq<Byte>, p: ParameterSet, d': seq<Byte>, p': ParameterSet)
    requires IsParameterSet(p) && IsParameterSet(p') && IsSeedInput(s, d, p) && IsSeedInput(s, d', p')
    ensures p == p' && d == d'
  {
  }

  /** rho || j || i: the column, then the row. */
  predicate IsEntryInput(x: seq<Byte>, rho: seq<Byte>, i: nat, j: nat) {
    |x| == 34 && x[..32] == rho && x[32] == j && x[33] == i
  }

  lemma MatrixReads(h: Hashes, rho: seq<Byte>, k: nat, i: nat, j: nat, x: seq<Byte>)
    requires SamplersEnd(h) && k <= 4 && i < k && j < k && IsEntryInput(x, rho, i, j)
    ensures Yields(NttCandidates(h.shake128(x)), N)
    ensures var a := Matrix(h, rho, k); |a| == k && |a[i]| == k && a[i][j] == NttPoly(h.shake128(x))
  {
    hide NttCandidates, NttPoly, IsPoly;
    assert x == rho + [j, i];
  }

  // ----- noise: Algorithm 8 on SHAKE256(seed || counter) -----

  /** The ones among n bits of a stream. */
  function StreamOnes(s: Stream, from: nat, n: nat): (c: int) {
    if n == 0 then 0 else StreamOnes(s, from, n - 1) + StreamBit(s, from + n - 1)
  }

  /** Coefficient j is, modulo q, the ones among eta bits less the ones among the next eta bits. */
  ghost predicate IsBinomial(f: seq<int>, s: Stream, eta: nat) {
    |f| == N && forall j: nat :: j < N ==>
      f[j] == (StreamOnes(s, 2 * j * eta, eta) - StreamOnes(s, 2 * j * eta + eta, eta)) % Q
  }

  lemma {:induction false} OnesRead(s: Stream, bytes: seq<Byte>, from: nat, n: nat)
    requires bytes == Take(s, 0, |bytes|) && from + n <= 8 * |bytes|
    ensures CountOnes(ByteNumber(bytes), from, n) == StreamOnes(s, from, n)
  {
    hide ToNat, Bit, Pow2;
    if n == 0 {
    } else {
      OnesRead(s, bytes, from, n - 1);
      var t := from + n - 1;
      BitOfByte(bytes, t);
      assert bytes[t / 8] == s(t / 8);
    }
  }

  lemma CbdReads(s: Stream, eta: nat)
    requires eta <= 3
    ensures IsBinomial(Cbd(eta, Take(s, 0, 64 * eta)), s, eta)
  {
    hide CountOnes, StreamOnes, ToNat;
    var bytes := Take(s, 0, 64 * eta);
    var x, f := ByteNumber(bytes), Cbd(eta, bytes);
    forall j: nat | j < N
      ensures f[j] == (StreamOnes(s, 2 * j * eta, eta) - StreamOnes(s, 2 * j * eta + eta, eta)) % Q
    {
      WindowFits(eta, j);
      OnesRead(s, bytes, 2 * j * eta, eta);
      OnesRead(s, bytes, 2 * j * eta + eta, eta);
      DifferenceIs(x, eta, j, CountOnes(x, 2 * j * eta, eta), CountOnes(x, 2 * j * eta + eta, eta));
    }
  }

  /** seed || counter */
  predicate IsNoiseInput(n: seq<Byte>, seed: seq<Byte>, counter: nat) {
    |n| == 33 && n[..32] == seed && n[32] == counter
  }

  /** The noise polynomials of one key generation and of one encryption. */
  datatype KeyNoise = S(i: nat) | E(i: nat)
  datatype EncryptionNoise = Y(i: nat) | E1(i: nat) | E2

  predicate IsKeyNoise(x: KeyNoise, p: ParameterSet) {
    x.i < p.k
  }

  predicate IsEncryptionNoise(x: EncryptionNoise, p: ParameterSet) {
    x.E2? || x.i < p.k
  }

  /** s_0, ..., s_(k - 1), e_0, ..., e_(k - 1): one counter after the other. */
  function KeyCounter(x: KeyNoise, p: ParameterSet): (c: nat) {
    match x
    case S(i) => i
    case E(i) => p.k + i
  }

  /** y_0, ..., y_(k - 1), e1_0, ..., e1_(k - 1), e2. */
  function EncryptionCounter(x: EncryptionNoise, p: ParameterSet): (c: nat) {
    match x
    case Y(i) => i
    case E1(i) => p.k + i
    case E2 => 2 * p.k
  }

  ghost function KeyNoisePoly(h: Hashes, p: ParameterSet, d: seq<Byte>, x: KeyNoise): (f: seq<int>)
    requires IsParameterSet(p) && IsKeyNoise(x, p)
  {
    match x
    case S(i) => SOf(h, p, d)[i]
    case E(i) => EOf(h, p, d)[i]
  }

  ghost function EncryptionNoisePoly(h: Hashes, p: ParameterSet, r: seq<Byte>, x: EncryptionNoise): (f: seq<int>)
    requires IsParameterSet(p) && IsEncryptionNoise(x, p)
  {
    match x
    case Y(i) => YOf(h, p, r)[i]
    case E1(i) => E1Of(h, p, r)[i]
    case E2 => E2Of(h, p, r)
  }

  lemma NoiseReads(h: Hashes, eta: nat, seed: seq<Byte>, counter: nat, n: seq<Byte>)
    requires eta <= 3 && IsNoiseInput(n, seed, counter)
    ensures counter < 256 && IsBinomial(NoisePoly(h, eta, seed, counter), h.shake256(n), eta)
  {
    hide IsBinomial, Cbd, Take, IsPoly, Bounded;
    LastByte(n, seed, n[32]);
    CbdReads(h.shake256(n), eta);
  }

  /** Each polynomial of key generation comes from SHAKE256(sigma || its counter). */
  lemma KeyNoiseReads(h: Hashes, p: ParameterSet, d: seq<Byte>, x: KeyNoise, n: seq<Byte>)
    requires IsParameterSet(p) && IsKeyNoise(x, p) && IsNoiseInput(n, SeedsOf(h, p, d).1, KeyCounter(x, p))
    ensures IsBinomial(KeyNoisePoly(h, p, d, x), h.shake256(n), p.eta1)
  {
    hide IsBinomial, NoisePoly, IsPoly, Bounded, SeedsOf;
    NoiseReads(h, p.eta1, SeedsOf(h, p, d).1, KeyCounter(x, p), n);
  }

  /** Each polynomial of encryption comes from SHAKE256(r || its counter). */
  lemma EncryptionNoiseReads(h: Hashes, p: ParameterSet, r: seq<Byte>, x: EncryptionNoise, n: seq<Byte>)
    requires IsParameterSet(p) && IsEncryptionNoise(x, p) && IsNoiseInput(n, r, EncryptionCounter(x, p))
    ensures IsBinomial(EncryptionNoisePoly(h, p, r, x), h.shake256(n), if x.Y? then p.eta1 else p.eta2)
  {
    hide IsBinomial, NoisePoly, IsPoly, Bounded;
    NoiseReads(h, if x.Y? then p.eta1 else p.eta2, r, EncryptionCounter(x, p), n);
  }

  /** The 2k polynomials of one key generation come from 2k different strings. */
  lemma KeyNoiseIsFresh(p: ParameterSet, sigma: seq<Byte>, x: KeyNoise, n: seq<Byte>, x': KeyNoise, n': seq<Byte>)
    requires IsParameterSet(p) && IsKeyNoise(x, p) && IsKeyNoise(x', p)
    requires IsNoiseInput(n, sigma, KeyCounter(x, p)) && IsNoiseInput(n', sigma, KeyCounter(x', p))
    ensures KeyCounter(x, p) < 2 * p.k && (x != x' ==> n != n')
  {
  }

  /** The 2k + 1 polynomials of one encryption come from 2k + 1 different strings. */
  lemma EncryptionNoiseIsFresh(p: ParameterSet, r: seq<Byte>, x: EncryptionNoise, n: seq<Byte>, x': EncryptionNoise,
                               n': seq<Byte>)
    requires IsParameterSet(p) && IsEncryptionNoise(x, p) && IsEncryptionNoise(x', p)
    requires IsNoiseInput(n, r, EncryptionCounter(x, p)) && IsNoiseInput(n', r, EncryptionCounter(x', p))
    ensures EncryptionCounter(x, p) <= 2 * p.k && (x != x' ==> n != n')
  {
  }

  // ----- the shared secret: Algorithms 17 and 18 -----

  /** m || H(ek) */
  ghost predicate IsSecretInput(h: Hashes, s: seq<Byte>, ek: seq<Byte>, m: seq<Byte>) {
    |s| == 64 && s[..32] == m && Reads(s[32..], h.sha3_256(ek), 0)
  }

  /** K and r are the halves of SHA3-512(m || SHA3-256(ek)). */
  lemma SecretReads(h: Hashes, ek: seq<Byte>, m: seq<Byte>, s: seq<Byte>)
    requires IsSecretInput(h, s, ek, m)
    ensures var (k, r) := SecretAndCoins(h, ek, m);
      |k| == |r| == 32 && Reads(k, h.sha3_512(s), 0) && Reads(r, h.sha3_512(s), 32)
  {
    assert s[32..] == H(h, ek);
    assert s == s[..32] + s[32..];
  }

  /** The ciphertext of m is its encryption with the second half as randomness. */
  lemma CiphertextReads(h: Hashes, p: ParameterSet, ek: seq<Byte>, m: seq<Byte>, s: seq<Byte>)
    requires IsParameterSet(p) && SamplersEnd(h) && |ek| == EncapsKeyLen(p) && IsSecretInput(h, s, ek, m)
    ensures Encapsulated(h, p, ek, m) == Encrypted(h, p, ek, m, Take(h.sha3_512(s), 32, 32))
  {
    hide SamplersEnd, Encrypted;
    assert s[32..] == H(h, ek);
    assert s == s[..32] + s[32..];
  }

  /** Two messages, or two keys whose hashes differ, never share that string. */
  lemma SecretsDiffer(h: Hashes, s: seq<Byte>, ek: seq<Byte>, m: seq<Byte>, ek': seq<Byte>, m': seq<Byte>)
    requires IsSecretInput(h, s, ek, m) && IsSecretInput(h, s, ek', m')
    ensures m == m' && H(h, ek) == H(h, ek')
  {
    assert s[32..] == H(h, ek);
    assert s[32..] == H(h, ek');
  }

  /** z || c */
  predicate IsRejectionInput(s: seq<Byte>, z: seq<Byte>, c: seq<Byte>) {
    |z| == 32 && |s| == 32 + |c| && s[..32] == z && s[32..] == c
  }

  /** What a rejected ciphertext gets is the first 32 bytes of SHAKE256(z || c), with z the end of the key. */
  lemma RejectionReads(h: Hashes, p: ParameterSet, dk: seq<Byte>, c: seq<Byte>, s: seq<Byte>)
    requires IsParameterSet(p) && |dk| == DecapsKeyLen(p) && IsRejectionInput(s, dk[|dk| - 32..], c)
    ensures |J(h, DkZ(p, dk) + c)| == 32 && Reads(J(h, DkZ(p, dk) + c), h.shake256(s), 0)
  {
    assert dk[|dk| - 32..] == DkZ(p, dk);
    assert s == s[..32] + s[32..];
  }

  /** Section 7.3: a key is accepted exactly when it has the right length and the 32 bytes before z are SHA3-256 of the
      bytes that stand for ek. */
  lemma DecapsKeyExactly(h: Hashes, p: ParameterSet, dk: seq<Byte>)
    requires IsParameterSet(p)
    ensures DecapsKeyValid(h, p, dk)
      <==> && |dk| == 768 * p.k + 96
           && Reads(dk[768 * p.k + 32..768 * p.k + 64], h.sha3_256(dk[384 * p.k..768 * p.k + 32]), 0)
  {
    if |dk| == 768 * p.k + 96 {
      var stored := dk[768 * p.k + 32..768 * p.k + 64];
      if Reads(stored, h.sha3_256(dk[384 * p.k..768 * p.k + 32]), 0) {
        assert H(h, DkEk(p, dk)) == stored;
      }
    }
  }
}
