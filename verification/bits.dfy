/** Single bits of numbers held as bytes: what shifting a byte and masking its lowest bit reads, and what
    setting a bit in a cleared buffer adds. */
module Bits {
  import opened Modular
  import opened Machine
  import opened Digits

  /** Bit t of n. */
  function Bit(n: int, t: nat): (b: int)
    ensures b == 0 || b == 1
  {
    n / Pow2(t) % 2
  }

  lemma DivDiv(n: int, a: int, b: int)
    requires 0 <= n && 0 < a && 0 < b
    ensures 0 < a * b && n / a / b == n / (a * b)
  {
    var x, r := n / a, n % a;
    var y, s := x / b, x % b;
    assert n == x * a + r && x == y * b + s;
    assert x * a == y * (a * b) + s * a;
    Scaled(s, b - 1, a);
    Scaled(0, s, a);
    assert (b - 1) * a == a * b - a;
    QuotientIs(y, a * b, s * a + r);
  }

  /** n / 2^j / 2^k = n / 2^(j + k) */
  lemma ShiftShift(n: int, j: nat, k: nat)
    requires 0 <= n
    ensures 0 <= n / Pow2(j) && n / Pow2(j) / Pow2(k) == n / Pow2(j + k)
  {
    QuotientRange(n, Pow2(j));
    Pow2Add(j, k);
    DivDiv(n, Pow2(j), Pow2(k));
  }

  lemma NextDigit(p: int, y: int, b: int, r: int)
    requires 0 <= r < p && (b == 0 || b == 1)
    ensures ((2 * y + b) * p + r) % (2 * p) == r + b * p
  {
    assert (2 * y + b) * p == y * (2 * p) + b * p;
    ModOf(2 * p, y, b * p + r);
  }

  /** The lowest i + 1 bits are the lowest i bits and bit i. */
  lemma LowBitsNext(n: int, i: nat)
    requires 0 <= n
    ensures n % Pow2(i + 1) == n % Pow2(i) + Bit(n, i) * Pow2(i)
    ensures 0 <= n % Pow2(i) < Pow2(i)
  {
    assert Pow2(i + 1) == 2 * Pow2(i);
    hide Pow2;
    var p := Pow2(i);
    var x, r := n / p, n % p;
    NextDigit(p, x / 2, x % 2, r);
    assert n == x * p + r && x == 2 * (x / 2) + x % 2;
  }

  // ----- digits -----

  lemma ToNatHead(s: seq<int>, base: int)
    requires s != []
    ensures ToNat(s, base) == s[0] + base * ToNat(s[1..], base)
  {
  }

  /** Digit k of a number in base 256 or any other. */
  lemma DigitOf(s: seq<int>, base: int, k: nat)
    requires base > 0 && AreDigits(s, base) && k < |s|
    ensures Pow(base, k) > 0 && ToNat(s, base) / Pow(base, k) % base == s[k]
  {
    hide Pow, ToNat;
    var p, lo, hi := Pow(base, k), s[..k], s[k..];
    ToNatAppend(lo, hi, base);
    assert s == lo + hi;
    ToNatBound(lo, base);
    var t := ToNat(hi[1..], base);
    ToNatHead(hi, base);
    assert p * ToNat(hi, base) == ToNat(hi, base) * p;
    ModOf(p, ToNat(hi, base), ToNat(lo, base));
    assert base * t == t * base;
    ModOf(base, t, s[k]);
  }

  /** Digit k of what FromNat makes. */
  lemma {:induction false} FromNatAt(n: int, base: int, len: nat, k: nat)
    requires base > 0 && 0 <= n && k < len
    ensures Pow(base, k) > 0 && FromNat(n, base, len)[k] == n / Pow(base, k) % base
    decreases k
  {
    if k == 0 {
      assert Pow(base, 0) == 1;
    } else {
      QuotientRange(n, base);
      FromNatAt(n / base, base, len - 1, k - 1);
      DivDiv(n, base, Pow(base, k - 1));
    }
  }

  /** Changing one digit changes the number by the difference times its weight. */
  lemma ToNatSet(s: seq<int>, base: int, k: nat, x: int)
    requires k < |s|
    ensures ToNat(s[k := s[k] + x], base) == ToNat(s, base) + x * Pow(base, k)
  {
    hide Pow, ToNat;
    var lo, hi := s[..k], s[k..];
    var s' := s[k := s[k] + x];
    assert s == lo + hi && s' == lo + s'[k..] && s'[k..][1..] == hi[1..];
    ToNatAppend(lo, hi, base);
    ToNatAppend(lo, s'[k..], base);
    ToNatHead(hi, base);
    ToNatHead(s'[k..], base);
    var p := Pow(base, k);
    assert p * (ToNat(hi, base) + x) == p * ToNat(hi, base) + x * p;
  }

  /** 2^t as bit t % d of digit t / d in base 2^d. */
  lemma DigitWeight(d: nat, t: nat)
    requires d > 0
    ensures Pow2(t % d) * Pow(Pow2(d), t / d) == Pow2(t)
  {
    hide Pow, Pow2;
    var k, r := t / d, t % d;
    PowOfPow2(d, k);
    ProductIs(d, k);
    Pow2Add(d * k, r);
  }

  /** 2^t as bit t % 8 of byte t / 8. */
  lemma BitWeight(t: nat)
    ensures Pow2(t % 8) * Pow(256, t / 8) == Pow2(t) && 0 < Pow2(t % 8) <= 128
  {
    var k, r := t / 8, t % 8;
    Pow2Byte();
    PowOfPow2(8, k);
    ProductIs(8, k);
    Pow2Add(8 * k, r);
    Pow2Monotone(r, 7);
    assert Pow2(7) == 128 by { assert Pow2(3) == 8 && Pow2(4) == 16; Pow2Add(3, 4); }
  }

  /** p = 2^r divides 2^(d - 1), so what lies above the lowest d bits adds an even number to the bits from r on. */
  lemma BitBelow(h: int, p: int, q: int, x: int, m: int)
    requires 0 <= m < p
    ensures (h * (2 * (p * q)) + (x * p + m)) / p % 2 == x % 2
  {
    assert h * (2 * (p * q)) + (x * p + m) == (2 * (h * q) + x) * p + m by {
      assert (2 * (h * q) + x) * p == 2 * h * (p * q) + x * p;
    }
    QuotientIs(2 * (h * q) + x, p, m);
    ModShift(2, x, h * q);
  }

  /** The lowest d bits of z are bits of z. */
  lemma LowBit(z: int, d: nat, r: nat)
    requires 0 <= z && r < d
    ensures z % Pow2(d) / Pow2(r) % 2 == z / Pow2(r) % 2
  {
    Pow2Add(r, d - 1 - r);
    assert Pow2(d) == 2 * Pow2(d - 1);
    hide Pow2;
    var p, w := Pow2(r), Pow2(d);
    var y := z % w;
    BitBelow(z / w, p, Pow2(d - 1 - r), y / p, y % p);
    assert z == z / w * w + y && y == y / p * p + y % p;
  }

  /** Bit t % d of digit t / d in base 2^d is bit t of the number. */
  lemma BitOfDigit(s: seq<int>, d: nat, t: nat)
    requires d > 0 && AreDigits(s, Pow2(d)) && t / d < |s|
    ensures s[t / d] / Pow2(t % d) % 2 == Bit(ToNat(s, Pow2(d)), t)
  {
    hide Pow, Pow2, ToNat;
    var k, r, base := t / d, t % d, Pow2(d);
    DigitOf(s, base, k);
    ToNatBound(s, base);
    QuotientRange(ToNat(s, base), Pow(base, k));
    LowBit(ToNat(s, base) / Pow(base, k), d, r);
    DigitWeight(d, t);
    DivDiv(ToNat(s, base), Pow(base, k), Pow2(r));
  }

  /** (s[t / 8] >> (t % 8)) & 1 is bit t of the whole string. */
  lemma BitOfByte(s: seq<Byte>, t: nat)
    requires t / 8 < |s|
    ensures s[t / 8] / Pow2(t % 8) % 2 == Bit(ToNat(s, 256), t)
  {
    Pow2Byte();
    hide Pow2;
    var c: seq<int> := s;
    assert AreDigits(c, 256);
    BitOfDigit(c, 8, t);
  }

  // ----- a buffer being filled bit by bit -----

  /** All bits from position t on are clear. */
  predicate ClearFrom(s: seq<Byte>, t: nat) {
    && (t / 8 < |s| ==> s[t / 8] < Pow2(t % 8))
    && (forall i :: t / 8 < i < |s| ==> s[i] == 0)
  }

  lemma {:induction false} ZeroNumber(s: seq<int>)
    requires forall i :: 0 <= i < |s| ==> s[i] == 0
    ensures ToNat(s, 256) == 0
  {
    if s == [] {
    } else {
      ZeroNumber(s[1..]);
    }
  }

  lemma ClearNumber(s: seq<Byte>)
    requires forall i :: 0 <= i < |s| ==> s[i] == 0
    ensures ClearFrom(s, 0) && ToNat(s, 256) == 0
  {
    assert Pow2(0) == 1;
    ZeroNumber(s);
  }

  lemma Regroup(b: int, p: int, w: int)
    ensures b * p * w == b * (p * w)
  {
  }

  lemma StaysClear(s: seq<Byte>, t: nat, x: Byte)
    requires ClearFrom(s, t) && t / 8 < |s| && x < 2 * Pow2(t % 8)
    ensures ClearFrom(s[t / 8 := x], t + 1)
  {
    var k, r := t / 8, t % 8;
    assert Pow2(r + 1) == 2 * Pow2(r) && Pow2(0) == 1;
    hide Pow2;
    if r == 7 {
      assert (t + 1) / 8 == k + 1 && (t + 1) % 8 == 0;
    } else {
      assert (t + 1) / 8 == k && (t + 1) % 8 == r + 1;
    }
  }

  /** out[t / 8] |= b << (t % 8), on a buffer clear from t on: an addition. */
  lemma SetBit(s: seq<Byte>, t: nat, b: int)
    requires ClearFrom(s, t) && t / 8 < |s| && (b == 0 || b == 1)
    ensures var x := s[t / 8] + b * Pow2(t % 8);
      && 0 <= x < 256
      && ClearFrom(s[t / 8 := x], t + 1)
      && ToNat(s[t / 8 := x], 256) == ToNat(s, 256) + b * Pow2(t)
  {
    hide Pow, Pow2, ToNat;
    var k, p := t / 8, Pow2(t % 8);
    BitWeight(t);
    ToNatSet(s, 256, k, b * p);
    Regroup(b, p, Pow(256, k));
    if b == 0 {
      StaysClear(s, t, s[k]);
    } else {
      StaysClear(s, t, s[k] + p);
    }
  }

  // ----- bitwise operations on the lowest n bits -----

  function Xor(a: nat, b: nat, n: nat): (r: nat)
    decreases n
  {
    if n == 0 then 0 else 2 * Xor(a / 2, b / 2, n - 1) + (if a % 2 == b % 2 then 0 else 1)
  }

  function Or(a: nat, b: nat, n: nat): (r: nat)
    decreases n
  {
    if n == 0 then 0 else 2 * Or(a / 2, b / 2, n - 1) + (if a % 2 == 0 && b % 2 == 0 then 0 else 1)
  }

  function And(a: nat, b: nat, n: nat): (r: nat)
    decreases n
  {
    if n == 0 then 0 else 2 * And(a / 2, b / 2, n - 1) + (if a % 2 == 1 && b % 2 == 1 then 1 else 0)
  }

  lemma {:induction false} XorIs(a: nat, b: nat, n: nat)
    requires a < Pow2(n) && b < Pow2(n)
    ensures 0 <= Xor(a, b, n) < Pow2(n) && (Xor(a, b, n) == 0 <==> a == b)
    decreases n
  {
    if n == 0 {
    } else {
      XorIs(a / 2, b / 2, n - 1);
    }
  }

  lemma {:induction false} OrIs(a: nat, b: nat, n: nat)
    requires a < Pow2(n) && b < Pow2(n)
    ensures 0 <= Or(a, b, n) < Pow2(n) && (Or(a, b, n) == 0 <==> a == 0 && b == 0)
    ensures (b == 0 ==> Or(a, b, n) == a) && (a == 0 ==> Or(a, b, n) == b)
    decreases n
  {
    if n == 0 {
    } else {
      OrIs(a / 2, b / 2, n - 1);
    }
  }

  lemma {:induction false} AndIs(a: nat, b: nat, n: nat)
    requires a < Pow2(n) && b < Pow2(n)
    ensures 0 <= And(a, b, n) < Pow2(n)
    ensures (b == 0 ==> And(a, b, n) == 0) && (b == Pow2(n) - 1 ==> And(a, b, n) == a)
    decreases n
  {
    if n == 0 {
    } else {
      AndIs(a / 2, b / 2, n - 1);
    }
  }
}
