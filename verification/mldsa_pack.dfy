/** Packing coefficients into bytes: pack and unpack of macula-mldsa/src/encode.rs and the four
    conversions built on them. */
module MlDsaPack {
  import opened Modular
  import opened Machine
  import opened Polynomials
  import opened Digits
  import opened Packing
  import opened MlDsaArith

  lemma DigitAt(v: seq<int>, bits: nat, i: int)
    requires AreDigits(v, Pow2(bits)) && 0 <= i < |v|
    ensures 0 <= v[i] < Pow2(bits)
  {
  }

  lemma AccFits(ins: seq<int>, kin: nat, outs: seq<int>, kout: nat, acc: int, held: int)
    requires Between(ins, kin, outs, kout, acc, held) && held <= 28
    ensures 0 <= acc < 0x1000_0000
  {
    Pow2Monotone(held, 28);
    Pow2Byte();
    Pow2Add(8, 8);
    Pow2Add(16, 8);
    Pow2Add(24, 4);
    assert Pow2(4) == 16;
    hide Pow2;
    BetweenCounts(ins, kin, outs, kout, acc, held);
  }

  lemma RoomLeft(v: seq<int>, bits: nat, outs: seq<int>, acc: int, held: int)
    requires Between(v, bits, outs, 8, acc, held) && held >= 8 && |v| <= N
    ensures |outs| < 32 * bits
  {
    BetweenCounts(v, bits, outs, 8, acc, held);
    Scaled(|v|, N, bits);
  }

  /** When all values are in, no bits are left over and the bytes are complete. */
  lemma PackDone(v: seq<int>, bits: nat, outs: seq<Byte>, acc: int, held: int)
    requires |v| == N && Between(v, bits, outs, 8, acc, held) && held < 8
    ensures |outs| == 32 * bits && outs == Packed(v, bits)
  {
    BetweenCounts(v, bits, outs, 8, acc, held);
    assert bits * N == 256 * bits;
    BetweenEnd(v, bits, outs, 8, acc);
    Pow2Byte();
    FromToNat(outs, 256);
  }

  /** The accumulator loop that packs: values enter at the top, whole bytes leave at the bottom. */
  method Pack(v: seq<int>, bits: nat, out: array<Byte>, at: nat)
    requires |v| == N && 1 <= bits <= 20 && AreDigits(v, Pow2(bits)) && at + 32 * bits <= out.Length
    modifies out
    ensures out[..] == old(out[..at]) + Packed(v, bits) + old(out[at + 32 * bits..])
  {
    hide Pow2, Packed, Between, Product, AreDigits;
    ghost var before, after := out[..at], out[at + 32 * bits..];
    ghost var written: seq<Byte> := [];
    var acc := 0;
    var held := 0;
    var o := 0;
    BetweenStart(bits, 8);
    for i := 0 to N
      invariant 0 <= o <= 32 * bits && 0 <= held < 8 && 0 <= acc
      invariant Between(v[..i], bits, written, 8, acc, held) && out[at..at + o] == written
      invariant out[..at] == before && out[at + 32 * bits..] == after
    {
      DigitAt(v, bits, i);
      Push(v[..i], bits, written, 8, acc, held, v[i]);
      assert v[..i] + [v[i]] == v[..i + 1];
      AccFits(v[..i + 1], bits, written, 8, acc + v[i] * Pow2(held), held + bits);
      // | is + because acc is below 2^held
      acc := U64(acc + v[i] * Pow2(held));
      held := held + bits;
      while held >= 8
        invariant 0 <= o <= 32 * bits && 0 <= held <= 27 && 0 <= acc
        invariant Between(v[..i + 1], bits, written, 8, acc, held) && out[at..at + o] == written
        invariant out[..at] == before && out[at + 32 * bits..] == after
      {
        RoomLeft(v[..i + 1], bits, written, acc, held);
        Pop(v[..i + 1], bits, written, 8, acc, held);
        Pow2Byte();
        out[at + o] := acc % 256;
        written := written + [acc % 256];
        o := o + 1;
        acc := acc / 256;
        held := held - 8;
      }
    }
    assert v[..N] == v;
    PackDone(v, bits, written, acc, held);
    assert out[..] == out[..at] + out[at..at + o] + out[at + o..];
  }

  lemma BytesLeft(ins: seq<int>, bits: nat, outs: seq<int>, acc: int, held: int)
    requires Between(ins, 8, outs, bits, acc, held) && held < bits && |outs| < N
    ensures |ins| < 32 * bits
  {
    BetweenCounts(ins, 8, outs, bits, acc, held);
    Scaled(|outs|, N - 1, bits);
  }

  lemma UnpackDone(b: seq<Byte>, bits: nat, c: int, outs: seq<int>, acc: int, held: int)
    requires 0 <= c <= |b| == 32 * bits && |outs| == N
    requires Between(b[..c], 8, outs, bits, acc, held) && held < 8
    ensures outs == Unpacked(b, bits)
  {
    BetweenCounts(b[..c], 8, outs, bits, acc, held);
    assert bits * N == 256 * bits;
    assert b[..c] == b;
    BetweenEnd(b, 8, outs, bits, acc);
    Pow2Byte();
    FromToNat(outs, Pow2(bits));
  }

  /** The accumulator loop that unpacks: whole bytes enter at the top, values leave at the bottom. */
  method Unpack(b: seq<Byte>, bits: nat) returns (v: seq<int>)
    requires 1 <= bits <= 20 && |b| == 32 * bits
    ensures v == Unpacked(b, bits)
  {
    hide Pow2, Unpacked, Between, Product, AreDigits;
    var out := new int[N];
    ghost var written: seq<int> := [];
    var acc := 0;
    var held := 0;
    var c := 0;
    BetweenStart(8, bits);
    for i := 0 to N
      invariant 0 <= c <= |b| && 0 <= held < 8 && 0 <= acc
      invariant Between(b[..c], 8, written, bits, acc, held) && |written| == i && out[..i] == written
    {
      while held < bits
        invariant 0 <= c <= |b| && 0 <= held && held < bits + 8 && 0 <= acc
        invariant Between(b[..c], 8, written, bits, acc, held) && out[..i] == written
        decreases bits - held
      {
        BytesLeft(b[..c], bits, written, acc, held);
        Pow2Byte();
        Push(b[..c], 8, written, bits, acc, held, b[c]);
        assert b[..c] + [b[c]] == b[..c + 1];
        AccFits(b[..c + 1], 8, written, bits, acc + b[c] * Pow2(held), held + 8);
        // | is + because acc is below 2^held
        acc := U64(acc + b[c] * Pow2(held));
        held := held + 8;
        c := c + 1;
      }
      Pop(b[..c], 8, written, bits, acc, held);
      out[i] := acc % Pow2(bits);
      written := written + [acc % Pow2(bits)];
      QuotientRange(acc, Pow2(bits));
      acc := acc / Pow2(bits);
      held := held - bits;
    }
    v := out[..];
    UnpackDone(b, bits, c, written, acc, held);
  }

  // ----- the conversions of FIPS 204 section 7.1 -----

  /** FIPS 204 Algorithm 16. */
  method SimpleBitPack(w: seq<int>, bits: nat, out: array<Byte>, at: nat)
    requires |w| == N && 1 <= bits <= 20 && AreDigits(w, Pow2(bits)) && at + 32 * bits <= out.Length
    modifies out
    ensures out[..] == old(out[..at]) + Packed(w, bits) + old(out[at + 32 * bits..])
  {
    Pack(w, bits, out, at);
  }

  /** FIPS 204 Algorithm 18. */
  method SimpleBitUnpack(v: seq<Byte>, bits: nat) returns (w: seq<int>)
    requires 1 <= bits <= 20 && |v| == 32 * bits
    ensures w == Unpacked(v, bits)
  {
    w := Unpack(v, bits);
  }

  /** b - w, coefficient by coefficient. */
  function Below(b: int, w: seq<int>): (r: seq<int>)
    requires IsPoly(w) && 0 <= b < Q
    ensures IsPoly(r)
  {
    seq(N, i requires 0 <= i < N => SubQ(b, w[i]))
  }

  /** w stands for values in [b - 2^bits + 1, b], so that b - w fits in bits bits. */
  predicate FitsBelow(b: int, w: seq<int>, bits: nat)
    requires 0 <= b < Q
  {
    IsPoly(w) && AreDigits(Below(b, w), Pow2(bits))
  }

  function BitPacked(w: seq<int>, b: int, bits: nat): (r: seq<Byte>)
    requires IsPoly(w) && 0 <= b < Q
    ensures |r| == 32 * bits
  {
    Packed(Below(b, w), bits)
  }

  lemma Pow2Twenty(bits: nat)
    requires bits <= 20
    ensures Pow2(bits) <= 0x10_0000 < Q
  {
    Pow2Monotone(bits, 20);
    Pow2Byte();
    Pow2Add(8, 8);
    Pow2Add(16, 4);
    assert Pow2(4) == 16;
  }

  function BitUnpacked(v: seq<Byte>, b: int, bits: nat): (r: seq<int>)
    requires 0 <= b < Q && bits <= 20
    ensures IsPoly(r)
  {
    hide Pow2, Unpacked, FromSigned;
    Pow2Twenty(bits);
    var x := Unpacked(v, bits);
    seq(N, i requires 0 <= i < N => FromSigned(b - x[i]))
  }

  /** FIPS 204 Algorithm 17. */
  method BitPack(w: seq<int>, b: int, bits: nat, out: array<Byte>, at: nat)
    requires 0 <= b < Q && 1 <= bits <= 20 && FitsBelow(b, w, bits) && at + 32 * bits <= out.Length
    modifies out
    ensures out[..] == old(out[..at]) + BitPacked(w, b, bits) + old(out[at + 32 * bits..])
  {
    Pack(Below(b, w), bits, out, at);
  }

  /** FIPS 204 Algorithm 19. */
  method BitUnpack(v: seq<Byte>, b: int, bits: nat) returns (w: seq<int>)
    requires 0 <= b < Q && 1 <= bits <= 20 && |v| == 32 * bits
    ensures w == BitUnpacked(v, b, bits)
  {
    var x := Unpack(v, bits);
    Pow2Twenty(bits);
    w := seq(N, i requires 0 <= i < N => FromSigned(b - x[i]));
  }

  lemma DifferenceTwice(b: int, w: int)
    requires 0 <= b < Q && 0 <= w < Q
    ensures FromSigned(b - SubQ(b, w)) == w
  {
  }

  /** Unpacking undoes packing, for every polynomial whose values fit. */
  lemma BitUnpackOfPack(w: seq<int>, b: int, bits: nat)
    requires 0 <= b < Q && bits <= 20 && FitsBelow(b, w, bits)
    ensures BitUnpacked(BitPacked(w, b, bits), b, bits) == w
  {
    hide Pow2, Packed, Unpacked;
    var d := Below(b, w);
    UnpackOfPack(d, bits);
    Pow2Twenty(bits);
    var r := BitUnpacked(BitPacked(w, b, bits), b, bits);
    forall i | 0 <= i < N
      ensures r[i] == w[i]
    {
      DifferenceTwice(b, w[i]);
    }
  }

  lemma SignedTwice(b: int, x: int)
    requires 0 <= b < Q && 0 <= x < Q
    ensures SubQ(b, FromSigned(b - x)) == x
  {
  }

  /** Packing undoes unpacking, for every byte string of the right length. */
  lemma BitPackOfUnpack(v: seq<Byte>, b: int, bits: nat)
    requires 0 <= b < Q && bits <= 20 && |v| == 32 * bits
    ensures FitsBelow(b, BitUnpacked(v, b, bits), bits)
    ensures BitPacked(BitUnpacked(v, b, bits), b, bits) == v
  {
    hide Pow2, Packed, Unpacked;
    var x := Unpacked(v, bits);
    Pow2Twenty(bits);
    var w := BitUnpacked(v, b, bits);
    forall i | 0 <= i < N
      ensures Below(b, w)[i] == x[i]
    {
      SignedTwice(b, x[i]);
    }
    assert Below(b, w) == x;
    PackOfUnpack(v, bits);
  }
}
