/** What packing means bit by bit: bit t of the bytes is bit t % d of value t / d, as FIPS 204 section 7.1 and
    FIPS 203 section 4.2.1 define it through strings of bits. */
module Layout {
  import opened Modular
  import opened Machine
  import opened Polynomials
  import opened Digits
  import opened Chunks
  import opened Packing
  import opened Bits

  /** Bit b of a number that need not be known to be one. */
  function BitAt(x: int, b: nat): (r: int) {
    x / Pow2(b) % 2
  }

  /** Bit t of the bytes is bit t % d of value t / d. */
  predicate HoldsBit(bytes: seq<Byte>, v: seq<int>, d: nat, t: nat)
    requires d > 0
  {
    t / 8 < |bytes| && t / d < |v| && BitAt(bytes[t / 8], t % 8) == BitAt(v[t / d], t % d)
  }

  /** The bytes hold the values v, d bits each, lowest bits first. */
  ghost predicate Holds(bytes: seq<Byte>, v: seq<int>, d: nat) {
    && |bytes| == 32 * d && |v| == N && d > 0
    && forall t: nat :: t < 256 * d ==> HoldsBit(bytes, v, d, t)
  }

  lemma Places(d: nat, t: nat)
    requires d > 0 && t < 256 * d
    ensures t / 8 < 32 * d && t / d < N
  {
    var q, r := t / d, t % d;
    assert t == q * d + r;
    if q >= N { Scaled(N, q, d); }
  }

  lemma PackedNumber(v: seq<int>, d: nat)
    requires |v| == N && AreDigits(v, Pow2(d))
    ensures ToNat(Packed(v, d), 256) == ToNat(v, Pow2(d))
  {
    hide Pow, Pow2, ToNat, FromNat;
    SameRange(d);
    ToNatBound(v, Pow2(d));
    ToFromNat(ToNat(v, Pow2(d)), 256, 32 * d);
  }

  lemma PackedBit(v: seq<int>, d: nat, t: nat)
    requires |v| == N && d > 0 && AreDigits(v, Pow2(d)) && t < 256 * d
    ensures HoldsBit(Packed(v, d), v, d, t)
  {
    hide Pow2, ToNat, Packed, AreDigits;
    Places(d, t);
    PackedNumber(v, d);
    BitOfByte(Packed(v, d), t);
    BitOfDigit(v, d, t);
  }

  /** Packing writes the bits of the values one after the other. */
  lemma PackedHolds(v: seq<int>, d: nat)
    requires |v| == N && d > 0 && AreDigits(v, Pow2(d))
    ensures Holds(Packed(v, d), v, d)
  {
    hide Pow2, Packed, AreDigits, HoldsBit;
    forall t: nat | t < 256 * d
      ensures HoldsBit(Packed(v, d), v, d, t)
    {
      PackedBit(v, d, t);
    }
  }

  /** Unpacking reads them. */
  lemma UnpackedHolds(bytes: seq<Byte>, d: nat)
    requires |bytes| == 32 * d && d > 0
    ensures Holds(bytes, Unpacked(bytes, d), d)
  {
    hide Pow2, Packed, Unpacked, Holds;
    PackOfUnpack(bytes, d);
    PackedHolds(Unpacked(bytes, d), d);
  }

  /** Piece i of pieces of n elements begins at n i. */
  lemma PieceAt<T>(pieces: seq<seq<T>>, n: nat, i: nat)
    requires i < |pieces| && forall j :: 0 <= j < |pieces| ==> |pieces[j]| == n
    ensures |Concat(pieces)| == n * |pieces| && 0 <= n * i <= n * i + n <= |Concat(pieces)|
    ensures Concat(pieces)[n * i..n * i + n] == pieces[i]
  {
    hide Concat, Split;
    SplitConcat(pieces, n);
    SplitAt(Concat(pieces), n, |pieces|, i);
  }
}
