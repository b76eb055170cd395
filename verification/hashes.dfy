/** SHAKE and SHA-3 as the two lattice crates use them: the hash functions their models take as parameters,
    given by the sponge. */
module KeccakHashes {
  import opened Machine
  import opened Streams
  import opened Chunks
  import opened Sponge
  import opened SpongeBits
  import Dsa = MlDsaScheme
  import Kem = MlKemScheme

  function Bits(s: seq<Byte>): (r: seq<bv8>)
    ensures |r| == |s|
  {
    seq(|s|, i requires 0 <= i < |s| => s[i] as bv8)
  }

  function OutputByte(state: seq<bv64>, rate: nat, i: nat): (b: Byte)
    requires |state| == 25 && IsRate(rate)
  {
    hide Output;
    Output(state, rate, i) as int
  }

  /** The output stream of the sponge with one rate and one domain suffix. */
  function Hash(rate: nat, pad: bv8, s: seq<Byte>): (r: Stream)
    requires IsRate(rate)
  {
    hide Absorbed, OutputByte;
    var state := Absorbed(Bits(s), rate, pad);
    (i: nat) => OutputByte(state, rate, i)
  }

  /** The hash functions of ML-DSA. */
  function DsaHashes(): (h: Dsa.Hashes) {
    Dsa.Hashes(s => Hash(168, SHAKE_PAD, s), s => Hash(136, SHAKE_PAD, s))
  }

  /** The hash functions of ML-KEM. */
  function KemHashes(): (h: Kem.Hashes) {
    Kem.Hashes(s => Hash(168, SHAKE_PAD, s), s => Hash(136, SHAKE_PAD, s),
               s => Hash(136, SHA3_PAD, s), s => Hash(72, SHA3_PAD, s))
  }

  /** Taking bytes of the stream is reading from the sponge. */
  lemma TakeIsRead(rate: nat, pad: bv8, s: seq<Byte>, from: nat, n: nat)
    requires IsRate(rate)
    ensures forall i :: 0 <= i < n ==>
      Take(Hash(rate, pad, s), from, n)[i] == SpongeBytes(Bits(s), rate, pad, from, n)[i] as int
  {
    hide Absorbed, Output;
  }

  /** What the functions of FIPS 203 section 4.1 read from the sponge: SHA3-256, SHA3-512 and SHAKE256. */
  lemma KemReads(s: seq<Byte>, eta: nat, b: Byte, i: nat, j: nat)
    requires i < 32 && j < 64 * eta
    ensures Kem.H(KemHashes(), s)[i] == SpongeBytes(Bits(s), 136, SHA3_PAD, 0, 32)[i] as int
    ensures Kem.G(KemHashes(), s).0[i] == SpongeBytes(Bits(s), 72, SHA3_PAD, 0, 32)[i] as int
    ensures Kem.G(KemHashes(), s).1[i] == SpongeBytes(Bits(s), 72, SHA3_PAD, 32, 32)[i] as int
    ensures Kem.J(KemHashes(), s)[i] == SpongeBytes(Bits(s), 136, SHAKE_PAD, 0, 32)[i] as int
    ensures Kem.Prf(KemHashes(), eta, s, b)[j] == SpongeBytes(Bits(s + [b]), 136, SHAKE_PAD, 0, 64 * eta)[j] as int
  {
    hide Hash, SpongeBytes, Take, Bits;
    TakeIsRead(136, SHA3_PAD, s, 0, 32);
    TakeIsRead(72, SHA3_PAD, s, 0, 32);
    TakeIsRead(72, SHA3_PAD, s, 32, 32);
    TakeIsRead(136, SHAKE_PAD, s, 0, 32);
    TakeIsRead(136, SHAKE_PAD, s + [b], 0, 64 * eta);
  }

  lemma TakeBits(rate: nat, pad: bv8, s: seq<Byte>, n: nat)
    requires IsRate(rate)
    ensures Bits(Take(Hash(rate, pad, s), 0, n)) == SpongeBytes(Bits(s), rate, pad, 0, n)
  {
    hide Hash, SpongeBytes;
    TakeIsRead(rate, pad, s, 0, n);
  }

  /** Bit for bit, the streams are SHAKE128 and SHAKE256 of FIPS 202 section 6.2, and the digests SHA3-256 and SHA3-512
      of section 6.1. */
  lemma HashesAreStandard(s: seq<Byte>, n: nat)
    ensures var m := BitsOf(Bits(s));
      && BitsOf(Bits(Take(DsaHashes().shake128(s), 0, n))) == KeccakC(256, m + [true, true, true, true], 8 * n)
      && BitsOf(Bits(Take(DsaHashes().shake256(s), 0, n))) == KeccakC(512, m + [true, true, true, true], 8 * n)
      && BitsOf(Bits(Take(KemHashes().shake128(s), 0, n))) == KeccakC(256, m + [true, true, true, true], 8 * n)
      && BitsOf(Bits(Take(KemHashes().shake256(s), 0, n))) == KeccakC(512, m + [true, true, true, true], 8 * n)
      && BitsOf(Bits(Take(KemHashes().sha3_256(s), 0, 32))) == KeccakC(512, m + [false, true], 256)
      && BitsOf(Bits(Take(KemHashes().sha3_512(s), 0, 64))) == KeccakC(1024, m + [false, true], 512)
  {
    hide Hash, SpongeBytes, Take, Bits, BitsOf, KeccakC;
    FunctionsAreStandard(Bits(s), n);
    TakeBits(168, SHAKE_PAD, s, n);
    TakeBits(136, SHAKE_PAD, s, n);
    TakeBits(136, SHA3_PAD, s, 32);
    TakeBits(72, SHA3_PAD, s, 64);
  }

  function AllBits(pieces: seq<seq<Byte>>): (r: seq<seq<bv8>>) {
    seq(|pieces|, i requires 0 <= i < |pieces| => Bits(pieces[i]))
  }

  lemma BitsOfSum(a: seq<Byte>, b: seq<Byte>)
    ensures Bits(a + b) == Bits(a) + Bits(b)
  {
  }

  lemma {:induction false} BitsOfConcat(pieces: seq<seq<Byte>>)
    ensures Concat(AllBits(pieces)) == Bits(Concat(pieces))
  {
    if pieces == [] {
    } else {
      BitsOfConcat(pieces[1..]);
      assert AllBits(pieces)[1..] == AllBits(pieces[1..]);
      BitsOfSum(pieces[0], Concat(pieces[1..]));
    }
  }

  lemma OneRead(outs: seq<seq<bv8>>)
    requires |outs| == 1
    ensures Concat(outs) == outs[0]
  {
    assert outs[1..] == [];
    assert Concat(outs[1..]) == [];
  }

  /** Inputs absorbed one after the other hash as their concatenation: rho'', mu and the commitment hash are
      computed this way. */
  method HashPieces(pieces: seq<seq<Byte>>, n: nat) returns (r: seq<Byte>)
    ensures r == Dsa.H(DsaHashes(), Concat(pieces), n)
  {
    hide Absorbed, Output, Bits, AllBits, SpongeBytes;
    var outs := Incremental(AllBits(pieces), [n], 136, SHAKE_PAD);
    OneRead(outs);
    var out := outs[0];
    BitsOfConcat(pieces);
    TakeIsRead(136, SHAKE_PAD, Concat(pieces), 0, n);
    r := [];
    for i := 0 to n
      invariant |r| == i && forall j :: 0 <= j < i ==> r[j] == out[j] as int
    {
      r := r + [out[i] as int];
    }
  }
}
