/** Numbers as sequences of digits, least significant first.

    Packing 256 coefficients of d bits into bytes, and unpacking them, is a change of base: the
    coefficients are the digits in base 2^d of the number whose digits in base 256 are the bytes. */
module Digits {
  import opened Modular
  import opened Machine

  predicate AreDigits(s: seq<int>, base: int) {
    forall i :: 0 <= i < |s| ==> 0 <= s[i] < base
  }

  /** s[0] + s[1] base + s[2] base^2 + ... */
  function ToNat(s: seq<int>, base: int): (n: int) {
    if s == [] then 0 else s[0] + base * ToNat(s[1..], base)
  }

  /** The len lowest digits of n. */
  function FromNat(n: int, base: int, len: nat): (s: seq<int>)
    requires base > 0
    ensures |s| == len && AreDigits(s, base)
    decreases len
  {
    if len == 0 then [] else [n % base] + FromNat(n / base, base, len - 1)
  }

  lemma NextBound(d: int, t: int, p: int, base: int)
    requires 0 <= d < base && 0 <= t < p
    ensures 0 <= d + base * t < base * p
  {
    Scaled(t, p - 1, base);
    Scaled(0, t, base);
    assert base * t <= base * (p - 1) == base * p - base;
  }

  lemma {:induction false} ToNatBound(s: seq<int>, base: int)
    requires base > 0 && AreDigits(s, base)
    ensures 0 <= ToNat(s, base) < Pow(base, |s|)
  {
    if s == [] {
    } else {
      ToNatBound(s[1..], base);
      NextBound(s[0], ToNat(s[1..], base), Pow(base, |s| - 1), base);
    }
  }

  lemma {:induction false} ToNatAppend(a: seq<int>, b: seq<int>, base: int)
    ensures ToNat(a + b, base) == ToNat(a, base) + Pow(base, |a|) * ToNat(b, base)
  {
    if a == [] {
      assert a + b == b;
      assert Pow(base, 0) == 1;
    } else {
      ToNatAppend(a[1..], b, base);
      assert (a + b)[1..] == a[1..] + b;
      var p, t := Pow(base, |a| - 1), ToNat(b, base);
      assert base * (ToNat(a[1..], base) + p * t) == base * ToNat(a[1..], base) + (base * p) * t;
    }
  }

  lemma ToNatOne(d: int, base: int)
    ensures ToNat([d], base) == d
  {
    assert [d][1..] == [];
    assert base * ToNat([], base) == 0;
  }

  /** FromNat recovers the digits. */
  lemma {:induction false} FromToNat(s: seq<int>, base: int)
    requires base > 0 && AreDigits(s, base)
    ensures FromNat(ToNat(s, base), base, |s|) == s
  {
    if s == [] {
    } else {
      var t := ToNat(s[1..], base);
      assert base * t == t * base;
      ModOf(base, t, s[0]);
      FromToNat(s[1..], base);
      assert s == [s[0]] + s[1..];
    }
  }

  /** FromNat loses nothing of a number small enough. */
  lemma {:induction false} ToFromNat(n: int, base: int, len: nat)
    requires base > 0 && 0 <= n < Pow(base, len)
    ensures ToNat(FromNat(n, base, len), base) == n
  {
    if len == 0 {
    } else {
      var s := FromNat(n, base, len);
      assert n == (n / base) * base + n % base;
      QuotientRange(n, base);
      assert base * Pow(base, len - 1) == Pow(base, len - 1) * base;
      if n / base >= Pow(base, len - 1) { Scaled(Pow(base, len - 1), n / base, base); }
      ToFromNat(n / base, base, len - 1);
      assert s[1..] == FromNat(n / base, base, len - 1);
      assert base * (n / base) == (n / base) * base;
    }
  }

  function Product(a: nat, b: nat): (p: nat) {
    if b == 0 then 0 else a + Product(a, b - 1)
  }

  lemma ProductNext(a: nat, b: nat)
    ensures Product(a, b + 1) == Product(a, b) + a
  {
  }

  lemma {:induction false} PowPow(b: int, d: nat, e: nat)
    ensures Pow(Pow(b, d), e) == Pow(b, Product(d, e))
  {
    if e == 0 {
    } else {
      PowPow(b, d, e - 1);
      ProductNext(d, e - 1);
      PowAdd(b, d, Product(d, e - 1));
    }
  }

  // ----- products of small numbers, kept out of the solver's sight -----

  lemma {:induction false} ProductIs(a: nat, b: nat)
    ensures Product(a, b) == a * b
  {
    if b == 0 {
    } else {
      ProductIs(a, b - 1);
      assert a * b == a * (b - 1) + a;
    }
  }

  lemma Pow2Add(j: nat, k: nat)
    ensures Pow2(j + k) == Pow2(j) * Pow2(k)
  {
    PowAdd(2, j, k);
  }

  lemma PowOfPow2(k: nat, n: nat)
    ensures Pow(Pow2(k), n) == Pow2(Product(k, n))
  {
    PowPow(2, k, n);
  }

  // ----- change of base through an accumulator -----

  /** Digits of kin bits have been read and digits of kout bits written; acc holds the held bits in between. */
  ghost predicate Between(ins: seq<int>, kin: nat, outs: seq<int>, kout: nat, acc: int, held: int) {
    && AreDigits(ins, Pow2(kin)) && AreDigits(outs, Pow2(kout))
    && 0 <= held && 0 <= acc < Pow2(held)
    && Product(kin, |ins|) == Product(kout, |outs|) + held
    && ToNat(ins, Pow2(kin)) == ToNat(outs, Pow2(kout)) + acc * Pow2(Product(kout, |outs|))
  }

  lemma BetweenStart(kin: nat, kout: nat)
    ensures Between([], kin, [], kout, 0, 0)
  {
  }

  /** Reading a digit: acc |= d << held, which is a sum because acc is below 2^held. */
  lemma Push(ins: seq<int>, kin: nat, outs: seq<int>, kout: nat, acc: int, held: int, d: int)
    requires Between(ins, kin, outs, kout, acc, held) && 0 <= d < Pow2(kin)
    ensures Between(ins + [d], kin, outs, kout, acc + d * Pow2(held), held + kin)
  {
    hide Pow2, Product, ToNat;
    ToNatAppend(ins, [d], Pow2(kin));
    ToNatOne(d, Pow2(kin));
    PowOfPow2(kin, |ins|);
    var w := Product(kout, |outs|);
    Pow2Add(w, held);
    ProductNext(kin, |ins|);
    assert (acc + d * Pow2(held)) * Pow2(w) == acc * Pow2(w) + d * (Pow2(w) * Pow2(held));
    Pow2Add(held, kin);
    Scaled(d, Pow2(kin) - 1, Pow2(held));
    Scaled(0, d, Pow2(held));
    assert (Pow2(kin) - 1) * Pow2(held) == Pow2(held) * Pow2(kin) - Pow2(held);
  }

  /** Writing a digit: the low kout bits of acc. */
  lemma Pop(ins: seq<int>, kin: nat, outs: seq<int>, kout: nat, acc: int, held: int)
    requires Between(ins, kin, outs, kout, acc, held) && held >= kout
    ensures Between(ins, kin, outs + [acc % Pow2(kout)], kout, acc / Pow2(kout), held - kout)
  {
    hide Pow2, Product, ToNat;
    var b := Pow2(kout);
    var lo, hi := acc % b, acc / b;
    assert acc == hi * b + lo;
    ToNatAppend(outs, [lo], b);
    ToNatOne(lo, b);
    PowOfPow2(kout, |outs|);
    var w := Product(kout, |outs|);
    ProductNext(kout, |outs|);
    Pow2Add(w, kout);
    assert acc * Pow2(w) == hi * (Pow2(w) * b) + Pow2(w) * lo;
    QuotientRange(acc, b);
    Pow2Add(kout, held - kout);
    assert Pow2(held - kout) * b == Pow2(held);
    if hi >= Pow2(held - kout) { Scaled(Pow2(held - kout), hi, b); }
  }

  lemma BetweenEnd(ins: seq<int>, kin: nat, outs: seq<int>, kout: nat, acc: int)
    requires Between(ins, kin, outs, kout, acc, 0)
    ensures acc == 0 && ToNat(ins, Pow2(kin)) == ToNat(outs, Pow2(kout))
  {
    assert Pow2(0) == 1;
  }

  lemma BetweenCounts(ins: seq<int>, kin: nat, outs: seq<int>, kout: nat, acc: int, held: int)
    requires Between(ins, kin, outs, kout, acc, held)
    ensures 0 <= held && 0 <= acc < Pow2(held)
    ensures kin * |ins| == kout * |outs| + held
    ensures AreDigits(ins, Pow2(kin)) && AreDigits(outs, Pow2(kout))
  {
    ProductIs(kin, |ins|);
    ProductIs(kout, |outs|);
  }

  lemma {:induction false} Pow2Monotone(j: nat, k: nat)
    requires j <= k
    ensures Pow2(j) <= Pow2(k)
  {
    if j == k {
    } else {
      Pow2Monotone(j, k - 1);
      assert Pow2(k) == 2 * Pow2(k - 1);
    }
  }

  lemma Pow2Byte()
    ensures Pow2(8) == 256
  {
    Pow2Add(4, 4);
    assert Pow2(4) == 16;
  }
}

/** Byte strings made of pieces of equal length. */
module Chunks {

  function Concat<T>(chunks: seq<seq<T>>): (r: seq<T>) {
    if chunks == [] then [] else chunks[0] + Concat(chunks[1..])
  }

  lemma Shorter(n: nat, count: nat)
    requires count > 0
    ensures n * count == n + n * (count - 1) && 0 <= n * (count - 1)
  {
  }

  /** The first count pieces of n elements each. */
  function Split<T>(s: seq<T>, n: nat, count: nat): (r: seq<seq<T>>)
    requires |s| == n * count
    ensures |r| == count && forall i :: 0 <= i < count ==> |r[i]| == n
    decreases count
  {
    if count == 0 then []
    else
      Shorter(n, count);
      [s[..n]] + Split(s[n..], n, count - 1)
  }

  lemma {:induction false} ConcatLength<T>(chunks: seq<seq<T>>, n: nat)
    requires forall i :: 0 <= i < |chunks| ==> |chunks[i]| == n
    ensures |Concat(chunks)| == n * |chunks|
  {
    if chunks == [] {
    } else {
      ConcatLength(chunks[1..], n);
      Shorter(n, |chunks|);
    }
  }

  lemma {:induction false} ConcatSnoc<T>(chunks: seq<seq<T>>, last: seq<T>)
    ensures Concat(chunks + [last]) == Concat(chunks) + last
  {
    if chunks == [] {
      assert Concat([last]) == last + Concat([last][1..]);
      assert Concat([last][1..]) == [];
    } else {
      assert (chunks + [last])[1..] == chunks[1..] + [last];
      ConcatSnoc(chunks[1..], last);
    }
  }

  lemma {:induction false} SplitConcat<T>(chunks: seq<seq<T>>, n: nat)
    requires forall i :: 0 <= i < |chunks| ==> |chunks[i]| == n
    ensures |Concat(chunks)| == n * |chunks| && Split(Concat(chunks), n, |chunks|) == chunks
  {
    ConcatLength(chunks, n);
    if chunks == [] {
    } else {
      var c := Concat(chunks);
      SplitConcat(chunks[1..], n);
      assert c[..n] == chunks[0] && c[n..] == Concat(chunks[1..]);
      assert chunks == [chunks[0]] + chunks[1..];
    }
  }

  lemma {:induction false} ConcatSplit<T>(s: seq<T>, n: nat, count: nat)
    requires |s| == n * count
    ensures Concat(Split(s, n, count)) == s
    decreases count
  {
    if count == 0 {
    } else {
      Shorter(n, count);
      ConcatSplit(s[n..], n, count - 1);
      assert s == s[..n] + s[n..];
      assert Split(s, n, count)[1..] == Split(s[n..], n, count - 1);
    }
  }

  lemma {:induction false} SplitSnoc<T>(s: seq<T>, last: seq<T>, n: nat, count: nat)
    requires |s| == n * count && |last| == n
    ensures |s + last| == n * (count + 1) && Split(s + last, n, count + 1) == Split(s, n, count) + [last]
    decreases count
  {
    Shorter(n, count + 1);
    if count == 0 {
      assert s + last == last && last[..n] == last && last[n..] == [];
    } else {
      Shorter(n, count);
      assert (s + last)[..n] == s[..n] && (s + last)[n..] == s[n..] + last;
      SplitSnoc(s[n..], last, n, count - 1);
    }
  }

  lemma NothingConcat<T>(chunks: seq<seq<T>>)
    ensures Concat(chunks[..0]) == []
  {
  }

  /** Piece i of a string begins at n i. */
  lemma {:induction false} SplitAt<T>(s: seq<T>, n: nat, count: nat, i: nat)
    requires |s| == n * count && i < count
    ensures 0 <= n * i <= n * i + n <= |s|
    ensures Split(s, n, count)[i] == s[n * i..n * i + n]
    decreases count
  {
    Shorter(n, count);
    if i == 0 {
    } else {
      Shorter(n, i);
      SplitAt(s[n..], n, count - 1, i - 1);
    }
  }
}
