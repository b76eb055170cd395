/** ML-KEM: the Fujisaki-Okamoto transform of macula-mlkem/src/{lib,internal}.rs over K-PKE. */
module MlKem {
  import opened Machine
  import opened Modular
  import opened Polynomials
  import opened Digits
  import opened Packing
  import opened Bits
  import opened Chunks
  import opened MlKemArith
  import opened MlKemEncode
  import opened MlKemParams
  import opened MlKemScheme
  import opened MlKemCorrectness
  import opened MlKemPke

  datatype Result<+T> = Ok(value: T) | Err(error: Error)
  datatype Error = EncapsKeyInvalid | DecapsKeyInvalid | WrongLength

  // ----- comparison and selection without a branch -----

  /** The fold over all bytes, then the mapping of 0 to 255 and of everything else to 0. */
  method CtEq(a: seq<Byte>, b: seq<Byte>) returns (mask: Byte)
    requires |a| == |b|
    ensures mask == if a == b then 255 else 0
  {
    hide Xor, Or, Pow2;
    var diff: int := 0;
    Pow2Byte();
    for i := 0 to |a|
      invariant 0 <= diff < 256 && (diff == 0 <==> a[..i] == b[..i])
    {
      assert a[..i + 1] == a[..i] + [a[i]] && b[..i + 1] == b[..i] + [b[i]];
      XorIs(a[i], b[i], 8);
      OrIs(diff, Xor(a[i], b[i], 8), 8);
      diff := Or(diff, Xor(a[i], b[i], 8), 8);
    }
    assert a[..|a|] == a && b[..|b|] == b;
    // wrapping_sub in a u16, then the high byte
    mask := (diff - 1) % 0x1_0000 / 0x100;
  }

  /** (x & mask) | (y & !mask), byte by byte. */
  method CtSelect(mask: Byte, a: seq<Byte>, b: seq<Byte>) returns (out: seq<Byte>)
    requires (mask == 0 || mask == 255) && |a| == |b| == 32
    ensures out == if mask == 255 then a else b
  {
    hide And, Or, Pow2;
    Pow2Byte();
    out := [];
    for i := 0 to 32
      invariant out == (if mask == 255 then a else b)[..i]
    {
      AndIs(a[i], mask, 8);
      AndIs(b[i], 255 - mask, 8);
      OrIs(And(a[i], mask, 8), And(b[i], 255 - mask, 8), 8);
      out := out + [Or(And(a[i], mask, 8), And(b[i], 255 - mask, 8), 8)];
    }
  }

  // ----- the check of an encapsulation key, FIPS 203 section 7.2 -----

  /** The t-th group of 12 bits of a string, read off its bytes. */
  function Window(s: seq<Byte>, t: nat): (v: int)
    requires 3 * t + 3 <= 2 * |s|
  {
    var i := t / 2 * 3;
    var b1: int := s[i + 1];
    if t % 2 == 0 then
      var b0: int := s[i];
      b0 + 256 * (b1 % 16)
    else
      var b2: int := s[i + 2];
      b1 / 16 + 16 * b2
  }

  /** The length is right and every 12-bit window of the vector part is below q. */
  predicate EncapsKeyValid(p: ParameterSet, ek: seq<Byte>) {
    && |ek| == EncapsKeyLen(p)
    && forall t :: 0 <= t < 256 * p.k ==> Window(ek, t) < Q
  }

  /** 4096^j is 256^(3i), and 4096 times that if j is odd. */
  lemma SameWeight(j: nat)
    ensures Pow(Pow2(12), j) == Pow(256, 3 * (j / 2)) * if j % 2 == 0 then 1 else 0x1000
    ensures Pow(256, 3 * (j / 2)) > 0
  {
    var i := j / 2;
    Pow2Byte();
    Pow2Twelve();
    hide Pow2;
    PowOfPow2(12, j);
    PowOfPow2(8, 3 * i);
    ProductIs(12, j);
    ProductIs(8, 3 * i);
    Pow2Add(24 * i, 12);
    PowPositive(256, 3 * i);
  }

  /** Dropping k digits is dividing by base^k. */
  lemma DigitsFrom(c: seq<int>, k: nat)
    requires AreDigits(c, 256) && k <= |c|
    ensures Pow(256, k) > 0 && ToNat(c, 256) / Pow(256, k) == ToNat(c[k..], 256) >= 0
  {
    hide Pow, ToNat;
    var lo, hi := c[..k], c[k..];
    assert c == lo + hi;
    ToNatAppend(lo, hi, 256);
    ToNatBound(lo, 256);
    ToNatBound(hi, 256);
    QuotientIs(ToNat(hi, 256), Pow(256, k), ToNat(lo, 256));
  }

  lemma ThreeDigits(c: seq<int>, k: nat)
    requires AreDigits(c, 256) && k + 2 < |c|
    ensures ToNat(c[k + 3..], 256) >= 0
    ensures ToNat(c[k..], 256) == c[k] + 256 * c[k + 1] + 0x1_0000 * c[k + 2] + 0x100_0000 * ToNat(c[k + 3..], 256)
  {
    hide Pow, ToNat;
    ToNatHead(c[k..], 256);
    ToNatHead(c[k + 1..], 256);
    ToNatHead(c[k + 2..], 256);
    assert c[k..][1..] == c[k + 1..] && c[k + 1..][1..] == c[k + 2..] && c[k + 2..][1..] == c[k + 3..];
    ToNatBound(c[k + 3..], 256);
  }

  lemma EvenWindow(b0: Byte, b1: Byte, b2: Byte, rest: nat)
    ensures (b0 + 256 * b1 + 0x1_0000 * b2 + 0x100_0000 * rest) % 0x1000 == b0 + 256 * (b1 % 16)
  {
    ModOf(0x1000, b1 / 16 + 16 * b2 + 0x1000 * rest, b0 + 256 * (b1 % 16));
  }

  lemma OddWindow(b0: Byte, b1: Byte, b2: Byte, rest: nat)
    ensures (b0 + 256 * b1 + 0x1_0000 * b2 + 0x100_0000 * rest) / 0x1000 % 0x1000 == b1 / 16 + 16 * b2
  {
    QuotientIs(b1 / 16 + 16 * b2 + 0x1000 * rest, 0x1000, b0 + 256 * (b1 % 16));
    ModOf(0x1000, rest, b1 / 16 + 16 * b2);
  }

  lemma UnpackedEven(c: seq<int>, i: nat)
    requires |c| == 384 && AreDigits(c, 256) && i < 128
    ensures FromNat(ToNat(c, 256), Pow2(12), N)[2 * i] == ToNat(c[3 * i..], 256) % 0x1000
  {
    hide Pow, Pow2, ToNat, FromNat;
    Pow2Twelve();
    ToNatBound(c, 256);
    FromNatAt(ToNat(c, 256), Pow2(12), N, 2 * i);
    SameWeight(2 * i);
    DigitsFrom(c, 3 * i);
  }

  lemma UnpackedOdd(c: seq<int>, i: nat)
    requires |c| == 384 && AreDigits(c, 256) && i < 128
    ensures FromNat(ToNat(c, 256), Pow2(12), N)[2 * i + 1] == ToNat(c[3 * i..], 256) / 0x1000 % 0x1000
  {
    hide Pow, Pow2, ToNat, FromNat;
    Pow2Twelve();
    ToNatBound(c, 256);
    FromNatAt(ToNat(c, 256), Pow2(12), N, 2 * i + 1);
    SameWeight(2 * i + 1);
    DigitsFrom(c, 3 * i);
    DivDiv(ToNat(c, 256), Pow(256, 3 * i), 0x1000);
  }

  /** Unpacking twelve bits at a time reads the windows. */
  lemma UnpackedWindow(b: seq<Byte>, j: nat)
    requires |b| == 384 && j < N
    ensures Unpacked(b, 12)[j] == Window(b, j)
  {
    hide Pow, Pow2, ToNat, FromNat;
    var i := j / 2;
    var c: seq<int> := b;
    ThreeDigits(c, 3 * i);
    var rest := ToNat(c[3 * i + 3..], 256);
    if j % 2 == 0 {
      UnpackedEven(c, i);
      EvenWindow(b[3 * i], b[3 * i + 1], b[3 * i + 2], rest);
    } else {
      UnpackedOdd(c, i);
      OddWindow(b[3 * i], b[3 * i + 1], b[3 * i + 2], rest);
    }
  }

  method Reencoded(chunk: seq<Byte>) returns (again: seq<Byte>)
    requires |chunk| == 384
    ensures again == Encoded(Decoded(chunk, 12), 12)
  {
    hide Encoded, Unpacked;
    var f := ByteDecode(12, chunk);
    again := EncodePiece(f, 12);
  }

  lemma ChunkWindows(ek: seq<Byte>, i: nat, chunk: seq<Byte>)
    requires 384 * i + 384 <= |ek| && chunk == ek[384 * i..384 * i + 384]
    ensures forall j :: 0 <= j < N ==> Unpacked(chunk, 12)[j] == Window(ek, 256 * i + j)
  {
    hide Unpacked;
    forall j | 0 <= j < N
      ensures Unpacked(chunk, 12)[j] == Window(ek, 256 * i + j)
    {
      UnpackedWindow(chunk, j);
    }
  }

  /** The windows of piece i are below q. */
  predicate PieceBelow(ek: seq<Byte>, i: nat)
    requires 384 * i + 384 <= |ek|
  {
    forall t :: 256 * i <= t < 256 * i + 256 ==> Window(ek, t) < Q
  }

  /** A piece survives decoding and encoding exactly when its windows are below q. */
  lemma PieceValid(ek: seq<Byte>, i: nat, chunk: seq<Byte>)
    requires 384 * i + 384 <= |ek| && chunk == ek[384 * i..384 * i + 384]
    ensures Encoded(Decoded(chunk, 12), 12) == chunk <==> PieceBelow(ek, i)
  {
    hide Unpacked, Encoded, Decoded, Window;
    ChunkWindows(ek, i, chunk);
    EncodeOfDecode12(chunk);
    if PieceBelow(ek, i) {
      forall j | 0 <= j < N
        ensures Unpacked(chunk, 12)[j] < Q
      {
        assert Window(ek, 256 * i + j) < Q;
      }
    }
    if forall j :: 0 <= j < N ==> Unpacked(chunk, 12)[j] < Q {
      forall t | 256 * i <= t < 256 * i + 256
        ensures Window(ek, t) < Q
      {
        assert Unpacked(chunk, 12)[t - 256 * i] == Window(ek, 256 * i + (t - 256 * i));
      }
    }
  }

  /** Each 384-byte piece is decoded and encoded again, and must come back unchanged. */
  method CheckEncapsKey(p: ParameterSet, ek: seq<Byte>) returns (ok: bool)
    requires IsParameterSet(p)
    ensures ok <==> EncapsKeyValid(p, ek)
  {
    hide Encoded, Decoded, Window, Unpacked;
    if |ek| != EncapsKeyLen(p) {
      return false;
    }
    for i := 0 to p.k
      invariant forall t :: 0 <= t < 256 * i ==> Window(ek, t) < Q
    {
      var chunk := ek[384 * i..384 * i + 384];
      var again := Reencoded(chunk);
      PieceValid(ek, i, chunk);
      if again != chunk {
        return false;
      }
    }
    return true;
  }

  // ----- key generation and encapsulation -----

  /** dk = dk_pke || ek || H(ek) || z */
  ghost function DkOf(h: Hashes, p: ParameterSet, d: seq<Byte>, z: seq<Byte>): (dk: seq<Byte>)
    requires IsParameterSet(p) && SamplersEnd(h) && |z| == 32
    ensures |dk| == DecapsKeyLen(p)
  {
    hide EkOf, DkPkeOf, SamplersEnd;
    DkPkeOf(h, p, d) + EkOf(h, p, d) + H(h, EkOf(h, p, d)) + z
  }

  /** FIPS 203 Algorithm 16. */
  method KeyGen(h: Hashes, p: ParameterSet, d: seq<Byte>, z: seq<Byte>) returns (ek: seq<Byte>, dk: seq<Byte>)
    requires IsParameterSet(p) && SamplersEnd(h) && |d| == |z| == 32
    ensures ek == EkOf(h, p, d) && dk == DkOf(h, p, d, z)
  {
    hide EkOf, DkPkeOf, SamplersEnd;
    var dkPke;
    ek, dkPke := KeyGenPke(h, p, d);
    dk := [];
    dk := dk + dkPke;
    dk := dk + ek;
    dk := dk + H(h, ek);
    dk := dk + z;
  }

  /** (K, r) = G(m || H(ek)) */
  function SecretAndCoins(h: Hashes, ek: seq<Byte>, m: seq<Byte>): (r: (seq<Byte>, seq<Byte>))
    ensures |r.0| == |r.1| == 32
  {
    G(h, m + H(h, ek))
  }

  /** The ciphertext of m. */
  ghost function Encapsulated(h: Hashes, p: ParameterSet, ek: seq<Byte>, m: seq<Byte>): (c: seq<Byte>)
    requires IsParameterSet(p) && SamplersEnd(h) && |ek| == EncapsKeyLen(p) && |m| == 32
    ensures |c| == CiphertextLen(p)
  {
    Encrypted(h, p, ek, m, SecretAndCoins(h, ek, m).1)
  }

  /** FIPS 203 Algorithm 17 behind the input check. */
  method Encaps(h: Hashes, p: ParameterSet, ek: seq<Byte>, m: seq<Byte>) returns (r: Result<(seq<Byte>, seq<Byte>)>)
    requires IsParameterSet(p) && SamplersEnd(h) && |m| == 32
    ensures |ek| != EncapsKeyLen(p) ==> r == Err(WrongLength)
    ensures |ek| == EncapsKeyLen(p) && !EncapsKeyValid(p, ek) ==> r == Err(EncapsKeyInvalid)
    ensures EncapsKeyValid(p, ek) ==> r == Ok((Encapsulated(h, p, ek, m), SecretAndCoins(h, ek, m).0))
  {
    hide Encrypted, SamplersEnd, Window, G, H;
    if |ek| != EncapsKeyLen(p) {
      return Err(WrongLength);
    }
    var ok := CheckEncapsKey(p, ek);
    if !ok {
      return Err(EncapsKeyInvalid);
    }
    var (shared, coins) := G(h, m + H(h, ek));
    var c := Encrypt(h, p, ek, m, coins);
    return Ok((c, shared));
  }

  // ----- decapsulation -----

  /** The parts of a decapsulation key. */
  function DkPke(p: ParameterSet, dk: seq<Byte>): (r: seq<Byte>)
    requires |dk| == DecapsKeyLen(p)
    ensures |r| == 384 * p.k
  {
    dk[..384 * p.k]
  }

  function DkEk(p: ParameterSet, dk: seq<Byte>): (r: seq<Byte>)
    requires |dk| == DecapsKeyLen(p)
    ensures |r| == EncapsKeyLen(p)
  {
    dk[384 * p.k..768 * p.k + 32]
  }

  function DkHash(p: ParameterSet, dk: seq<Byte>): (r: seq<Byte>)
    requires |dk| == DecapsKeyLen(p)
    ensures |r| == 32
  {
    dk[768 * p.k + 32..768 * p.k + 64]
  }

  function DkZ(p: ParameterSet, dk: seq<Byte>): (r: seq<Byte>)
    requires |dk| == DecapsKeyLen(p)
    ensures |r| == 32
  {
    dk[768 * p.k + 64..]
  }

  /** FIPS 203 section 7.3: the stored hash is that of the stored ek. */
  predicate DecapsKeyValid(h: Hashes, p: ParameterSet, dk: seq<Byte>) {
    |dk| == DecapsKeyLen(p) && H(h, DkEk(p, dk)) == DkHash(p, dk)
  }

  /** The ciphertext is the re-encryption of what it decrypts to. */
  ghost predicate Reencrypts(h: Hashes, p: ParameterSet, dk: seq<Byte>, c: seq<Byte>)
    requires IsParameterSet(p) && SamplersEnd(h) && DecapsKeyValid(h, p, dk) && |c| == CiphertextLen(p)
  {
    c == Encapsulated(h, p, DkEk(p, dk), Decrypted(p, DkPke(p, dk), c))
  }

  /** FIPS 203 Algorithm 18 behind the input checks. Past them it never fails: a ciphertext that does not
      re-encrypt gets J(z || c). */
  method Decaps(h: Hashes, p: ParameterSet, dk: seq<Byte>, c: seq<Byte>) returns (r: Result<seq<Byte>>)
    requires IsParameterSet(p) && SamplersEnd(h)
    ensures |c| != CiphertextLen(p) || |dk| != DecapsKeyLen(p) ==> r == Err(WrongLength)
    ensures |c| == CiphertextLen(p) && |dk| == DecapsKeyLen(p) && !DecapsKeyValid(h, p, dk) ==>
      r == Err(DecapsKeyInvalid)
    ensures |c| == CiphertextLen(p) && DecapsKeyValid(h, p, dk) ==>
      r == Ok(if Reencrypts(h, p, dk, c) then SecretAndCoins(h, DkEk(p, dk), Decrypted(p, DkPke(p, dk), c)).0
        else J(h, DkZ(p, dk) + c))
  {
    hide Encrypted, Decrypted, SamplersEnd, G, H, J;
    if |c| != CiphertextLen(p) || |dk| != DecapsKeyLen(p) {
      return Err(WrongLength);
    }
    var ek := dk[384 * p.k..768 * p.k + 32];
    var hash := dk[768 * p.k + 32..768 * p.k + 64];
    if H(h, ek) != hash {
      return Err(DecapsKeyInvalid);
    }
    var z := dk[768 * p.k + 64..768 * p.k + 96];
    assert z == DkZ(p, dk);
    var m := Decrypt(p, dk[..384 * p.k], c);
    var (shared, coins) := G(h, m + hash);
    var rejection := J(h, z + c);
    var c' := Encrypt(h, p, ek, m, coins);
    var mask := CtEq(c, c');
    var k := CtSelect(mask, shared, rejection);
    return Ok(k);
  }

  // ----- what the two sides agree on -----

  lemma GeneratedParts(h: Hashes, p: ParameterSet, d: seq<Byte>, z: seq<Byte>)
    requires IsParameterSet(p) && SamplersEnd(h) && |z| == 32
    ensures var dk := DkOf(h, p, d, z);
      DkPke(p, dk) == DkPkeOf(h, p, d) && DkEk(p, dk) == EkOf(h, p, d) && DkZ(p, dk) == z && DecapsKeyValid(h, p, dk)
  {
    hide SamplersEnd, EkOf, DkPkeOf, H;
    var dk := DkOf(h, p, d, z);
    assert dk[..384 * p.k] == DkPkeOf(h, p, d);
    assert dk[384 * p.k..768 * p.k + 32] == EkOf(h, p, d);
    assert dk[768 * p.k + 32..768 * p.k + 64] == H(h, EkOf(h, p, d));
    assert dk[768 * p.k + 64..] == z;
  }

  lemma PieceOfKey(t: seq<seq<int>>, i: nat)
    requires MlKemScheme.IsVec(t, |t|) && i < |t|
    ensures |VecBytes(t, 12)| == 384 * |t| && VecBytes(t, 12)[384 * i..384 * i + 384] == Encoded(t[i], 12)
  {
    hide Encoded, Concat, Split, Valid;
    var pieces := Pieces(t, 12);
    SplitConcat(pieces, 384);
    Chunks.SplitAt(VecBytes(t, 12), 384, |t|, i);
  }

  /** Every generated encapsulation key passes the check. */
  lemma GeneratedKeyIsValid(h: Hashes, p: ParameterSet, d: seq<Byte>)
    requires IsParameterSet(p) && SamplersEnd(h)
    ensures EncapsKeyValid(p, EkOf(h, p, d))
  {
    hide SamplersEnd, TOf, VecBytes, Encoded, Window, Unpacked, Decoded;
    var ek, t := EkOf(h, p, d), TOf(h, p, d);
    VecSize(t, p.k);
    forall w | 0 <= w < 256 * p.k
      ensures Window(ek, w) < Q
    {
      var i := w / 256;
      PieceOfKey(t, i);
      assert ek[384 * i..384 * i + 384] == VecBytes(t, 12)[384 * i..384 * i + 384];
      DecodeOfEncode(t[i], 12);
      PieceValid(ek, i, Encoded(t[i], 12));
    }
  }

  /** Decapsulation gives the secret that encapsulation gave, for every generated pair and every message
      whose noise is in bound. */
  lemma DecapsOfEncaps(h: Hashes, p: ParameterSet, d: seq<Byte>, z: seq<Byte>, m: seq<Byte>)
    requires IsParameterSet(p) && SamplersEnd(h) && |z| == |m| == 32
    requires NoiseInBound(h, p, d, m, SecretAndCoins(h, EkOf(h, p, d), m).1)
    ensures var ek, dk := EkOf(h, p, d), DkOf(h, p, d, z);
      var c := Encapsulated(h, p, ek, m);
      && EncapsKeyValid(p, ek) && DecapsKeyValid(h, p, dk) && Reencrypts(h, p, dk, c)
      && SecretAndCoins(h, DkEk(p, dk), Decrypted(p, DkPke(p, dk), c)).0 == SecretAndCoins(h, ek, m).0
  {
    hide SamplersEnd, EkOf, DkPkeOf, DkOf, Encrypted, Decrypted, DecapsKeyValid, EncapsKeyValid, SecretAndCoins,
         NoiseInBound;
    GeneratedParts(h, p, d, z);
    GeneratedKeyIsValid(h, p, d);
    DecryptionCorrect(h, p, d, m, SecretAndCoins(h, EkOf(h, p, d), m).1);
  }

  /** m is a message whose ciphertext under the generated key is c and decrypts to m again. */
  ghost predicate Carries(h: Hashes, p: ParameterSet, d: seq<Byte>, c: seq<Byte>, m: seq<Byte>)
    requires IsParameterSet(p) && SamplersEnd(h)
  {
    && |m| == 32 && c == Encapsulated(h, p, EkOf(h, p, d), m)
    && NoiseInBound(h, p, d, m, SecretAndCoins(h, EkOf(h, p, d), m).1)
  }

  /** Under a generated key the ciphertexts that are not rejected are exactly those of messages whose noise
      is in bound: everything else gets the pseudorandom secret. */
  lemma AcceptedExactly(h: Hashes, p: ParameterSet, d: seq<Byte>, z: seq<Byte>, c: seq<Byte>)
    requires IsParameterSet(p) && SamplersEnd(h) && |z| == 32 && |c| == CiphertextLen(p)
    ensures DecapsKeyValid(h, p, DkOf(h, p, d, z))
    ensures Reencrypts(h, p, DkOf(h, p, d, z), c) <==> exists m :: Carries(h, p, d, c, m)
  {
    hide SamplersEnd, EkOf, DkPkeOf, DkOf, Encrypted, Decrypted, DecapsKeyValid, SecretAndCoins, NoiseInBound;
    GeneratedParts(h, p, d, z);
    var ek := EkOf(h, p, d);
    var m' := Decrypted(p, DkPkeOf(h, p, d), c);
    DecryptionCorrect(h, p, d, m', SecretAndCoins(h, ek, m').1);
    if Reencrypts(h, p, DkOf(h, p, d, z), c) {
      assert Carries(h, p, d, c, m');
    }
    forall m | Carries(h, p, d, c, m)
      ensures m == m'
    {
      DecryptionCorrect(h, p, d, m, SecretAndCoins(h, ek, m).1);
    }
  }
}
