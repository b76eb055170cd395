/** 256 values of d bits each as 32 d bytes, little-endian across the whole bit stream: the format that both
    lattice crates pack polynomials in. */
module Packing {
  import opened Modular
  import opened Machine
  import opened Polynomials
  import opened Digits

  /** The 32 * bits bytes that hold 256 values of bits bits each, little-endian. */
  function Packed(v: seq<int>, bits: nat): (r: seq<Byte>)
    ensures |r| == 32 * bits
  {
    var r := FromNat(ToNat(v, Pow2(bits)), 256, 32 * bits);
    assert forall i :: 0 <= i < |r| ==> 0 <= r[i] < 256;
    r
  }

  function Unpacked(b: seq<Byte>, bits: nat): (r: seq<int>)
    ensures |r| == N && AreDigits(r, Pow2(bits))
  {
    FromNat(ToNat(b, 256), Pow2(bits), N)
  }

  /** Both sides of the packing name the same numbers. */
  lemma SameRange(bits: nat)
    ensures Pow(Pow2(bits), N) == Pow(256, 32 * bits)
  {
    hide Pow2, Pow;
    Pow2Byte();
    PowOfPow2(bits, N);
    PowOfPow2(8, 32 * bits);
    ProductIs(bits, N);
    ProductIs(8, 32 * bits);
  }

  lemma UnpackOfPack(v: seq<int>, bits: nat)
    requires |v| == N && AreDigits(v, Pow2(bits))
    ensures Unpacked(Packed(v, bits), bits) == v
  {
    hide Pow, FromNat, ToNat, AreDigits;
    SameRange(bits);
    ToNatBound(v, Pow2(bits));
    ToFromNat(ToNat(v, Pow2(bits)), 256, 32 * bits);
    FromToNat(v, Pow2(bits));
  }

  lemma PackOfUnpack(b: seq<Byte>, bits: nat)
    requires |b| == 32 * bits
    ensures Packed(Unpacked(b, bits), bits) == b
  {
    var c: seq<int> := b;
    assert AreDigits(c, 256);
    hide Pow, FromNat, ToNat, AreDigits;
    SameRange(bits);
    ToNatBound(c, 256);
    ToFromNat(ToNat(c, 256), Pow2(bits), N);
    FromToNat(c, 256);
  }
}
