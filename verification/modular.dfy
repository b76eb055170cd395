/** Arithmetic modulo q on the canonical representatives 0 .. q - 1.

    Both lattice crates compute with coefficients in [0, q), for q = 8380417 and q = 3329. The
    operations below are the mathematical meaning of their branch-free add, sub and mul; the laws
    are stated once, for every modulus. */
module Modular {

  function Add(q: int, a: int, b: int): (r: int)
    requires q > 0
    ensures 0 <= r < q
  {
    (a + b) % q
  }

  function Sub(q: int, a: int, b: int): (r: int)
    requires q > 0
    ensures 0 <= r < q
  {
    (a - b) % q
  }

  function Mul(q: int, a: int, b: int): (r: int)
    requires q > 0
    ensures 0 <= r < q
  {
    (a * b) % q
  }

  /** A canonical representative. */
  predicate Canon(q: int, a: int) {
    0 <= a < q
  }

  lemma MulLower(d: int, q: int)
    requires d >= 1 && q > 0
    ensures d * q >= q
  {
  }

  lemma {:induction false} ModOf(q: int, k: int, r: int)
    requires 0 <= r < q
    ensures (k * q + r) % q == r
    ensures (k * q + r) / q == k
  {
    var x := k * q + r;
    var d := x / q - k;
    assert d * q == r - x % q by {
      assert x == (x / q) * q + x % q;
      assert d * q == (x / q) * q - k * q;
    }
    if d >= 1 { MulLower(d, q); }
    if d <= -1 { MulLower(-d, q); }
  }

  /** Adding a multiple of q does not change the remainder. */
  lemma {:induction false} ModShift(q: int, x: int, k: int)
    requires q > 0
    ensures (x + k * q) % q == x % q
  {
    var d := x / q;
    assert x == d * q + x % q;
    assert (d + k) * q == d * q + k * q;
    ModOf(q, d + k, x % q);
  }

  lemma ModCanon(q: int, a: int)
    requires Canon(q, a)
    ensures a % q == a
  {
    ModOf(q, 0, a);
  }

  lemma {:induction false} ModAdd(q: int, a: int, b: int)
    requires q > 0
    ensures (a % q + b) % q == (a + b) % q
  {
    assert a == (a / q) * q + a % q;
    ModShift(q, a % q + b, a / q);
    assert a % q + b + (a / q) * q == a + b;
  }

  lemma {:induction false} ModSub(q: int, a: int, b: int)
    requires q > 0
    ensures (a - b % q) % q == (a - b) % q
  {
    assert b == (b / q) * q + b % q;
    var k := -(b / q);
    assert k * q == -((b / q) * q);
    ModShift(q, a - b % q, k);
    assert a - b % q + k * q == a - b;
  }

  lemma {:induction false} ModMul(q: int, a: int, b: int)
    requires q > 0
    ensures ((a % q) * b) % q == (a * b) % q
  {
    var d := a / q;
    assert a == d * q + a % q;
    assert a * b == (d * q + a % q) * b == (d * q) * b + (a % q) * b;
    assert (d * q) * b == (d * b) * q;
    ModShift(q, (a % q) * b, d * b);
  }

  // ----- the laws of a commutative ring, on representatives -----

  lemma AddMod(q: int, x: int, y: int)
    requires q > 0
    ensures Add(q, x % q, y) == Add(q, x, y % q) == Add(q, x % q, y % q) == (x + y) % q
  {
    ModAdd(q, x, y);
    ModAdd(q, y, x);
    ModAdd(q, x, y % q);
  }

  lemma SubMod(q: int, x: int, y: int)
    requires q > 0
    ensures Sub(q, x % q, y) == Sub(q, x, y % q) == Sub(q, x % q, y % q) == (x - y) % q
  {
    ModAdd(q, x, -y);
    ModSub(q, x, y);
    ModSub(q, x % q, y);
  }

  lemma MulMod(q: int, x: int, y: int)
    requires q > 0
    ensures Mul(q, x % q, y) == Mul(q, x, y % q) == (x * y) % q
  {
    ModMul(q, x, y);
    ModMul(q, y, x);
    assert x * (y % q) == (y % q) * x && x * y == y * x;
  }

  lemma InRange(q: int, a: int, b: int)
    requires q > 0
    ensures Canon(q, Add(q, a, b)) && Canon(q, Sub(q, a, b)) && Canon(q, Mul(q, a, b))
  {
  }

  lemma AddComm(q: int, a: int, b: int)
    requires q > 0
    ensures Add(q, a, b) == Add(q, b, a)
  {
  }

  lemma SameSum(q: int, x: int, y: int)
    requires q > 0 && x == y
    ensures x % q == y % q
  {
  }

  lemma AddAssoc(q: int, a: int, b: int, c: int)
    requires q > 0
    ensures Add(q, Add(q, a, b), c) == Add(q, a, Add(q, b, c)) == (a + b + c) % q
  {
    AddMod(q, a + b, c);
    AddMod(q, a, b + c);
    SameSum(q, a + b + c, a + (b + c));
  }

  /** (a + b) + (c + d) = (a + c) + (b + d) */
  lemma AddSwap(q: int, a: int, b: int, c: int, d: int)
    requires q > 0
    ensures Add(q, Add(q, a, b), Add(q, c, d)) == Add(q, Add(q, a, c), Add(q, b, d))
  {
    AddMod(q, a + b, c + d);
    AddMod(q, a + c, b + d);
    SameSum(q, (a + b) + (c + d), (a + c) + (b + d));
  }

  lemma MulComm(q: int, a: int, b: int)
    requires q > 0
    ensures Mul(q, a, b) == Mul(q, b, a)
  {
    assert a * b == b * a;
  }

  lemma MulAssoc(q: int, a: int, b: int, c: int)
    requires q > 0
    ensures Mul(q, Mul(q, a, b), c) == Mul(q, a, Mul(q, b, c))
  {
    MulMod(q, a * b, c);
    MulMod(q, a, b * c);
    assert (a * b) * c == a * (b * c);
  }

  lemma MulAdd(q: int, z: int, a: int, b: int)
    requires q > 0
    ensures Mul(q, z, Add(q, a, b)) == Add(q, Mul(q, z, a), Mul(q, z, b))
  {
    MulMod(q, z, a + b);
    AddMod(q, z * a, z * b);
    assert z * (a + b) == z * a + z * b;
  }

  lemma MulSub(q: int, z: int, a: int, b: int)
    requires q > 0
    ensures Mul(q, z, Sub(q, a, b)) == Sub(q, Mul(q, z, a), Mul(q, z, b))
  {
    MulMod(q, z, a - b);
    SubMod(q, z * a, z * b);
    assert z * (a - b) == z * a - z * b;
  }

  lemma MulOne(q: int, a: int)
    requires Canon(q, a)
    ensures Mul(q, 1, a) == a
  {
    ModCanon(q, a);
  }

  lemma AddZero(q: int, a: int)
    requires Canon(q, a)
    ensures Add(q, a, 0) == a && Add(q, 0, a) == a && Sub(q, a, 0) == a
  {
    ModCanon(q, a);
  }

  lemma MulZero(q: int, a: int)
    requires q > 0
    ensures Mul(q, a, 0) == 0 && Mul(q, 0, a) == 0
  {
    ModCanon(q, 0);
  }

  /** Subtraction is addition of a negated multiple: a - z b = a + (-z) b. */
  lemma SubIsAddNeg(q: int, a: int, z: int, b: int)
    requires q > 0
    ensures Sub(q, a, Mul(q, z, b)) == Add(q, a, Mul(q, Sub(q, 0, z), b))
  {
    SubMod(q, a, z * b);
    MulMod(q, -z, b);
    AddMod(q, a, (-z) * b);
    assert a - z * b == a + (-z) * b;
  }

  /** (a + b) + (a - b) = 2 a and (a + b) - (a - b) = 2 b. */
  lemma SumDiff(q: int, a: int, b: int)
    requires q > 0
    ensures Add(q, Add(q, a, b), Sub(q, a, b)) == Mul(q, 2, a)
    ensures Sub(q, Add(q, a, b), Sub(q, a, b)) == Mul(q, 2, b)
  {
    AddMod(q, a + b, a - b);
    SubMod(q, a + b, a - b);
    SameSum(q, (a + b) + (a - b), 2 * a);
    SameSum(q, (a + b) - (a - b), 2 * b);
  }

  /** (a + b) - (c + d) = (a - c) + (b - d) */
  lemma SubSwap(q: int, a: int, b: int, c: int, d: int)
    requires q > 0
    ensures Sub(q, Add(q, a, b), Add(q, c, d)) == Add(q, Sub(q, a, c), Sub(q, b, d))
  {
    SubMod(q, a + b, c + d);
    AddMod(q, a - c, b - d);
    SameSum(q, (a + b) - (c + d), (a - c) + (b - d));
  }

  // ----- powers -----

  function Pow(b: int, e: nat): (r: int) {
    if e == 0 then 1 else b * Pow(b, e - 1)
  }

  lemma {:induction false} PowAdd(b: int, d: nat, e: nat)
    ensures Pow(b, d + e) == Pow(b, d) * Pow(b, e)
  {
    if d == 0 {
    } else {
      PowAdd(b, d - 1, e);
      assert b * (Pow(b, d - 1) * Pow(b, e)) == (b * Pow(b, d - 1)) * Pow(b, e);
    }
  }

  lemma {:induction false} PowPositive(b: int, e: nat)
    requires b > 0
    ensures Pow(b, e) > 0
  {
    if e > 0 { PowPositive(b, e - 1); }
  }

  /** b^d b^e, reduced, is b^(d + e), reduced. */
  lemma PowModAdd(q: int, b: int, d: nat, e: nat)
    requires q > 0
    ensures Mul(q, Pow(b, d) % q, Pow(b, e) % q) == Pow(b, d + e) % q
  {
    PowAdd(b, d, e);
    ModMul(q, Pow(b, d), Pow(b, e) % q);
    ModMul(q, Pow(b, e), Pow(b, d));
    assert Pow(b, d) * (Pow(b, e) % q) == (Pow(b, e) % q) * Pow(b, d);
    assert Pow(b, d) * Pow(b, e) == Pow(b, e) * Pow(b, d);
  }

  /** Equal remainders may replace each other in a product. */
  lemma ProductMod(q: int, a: int, x: int, y: int)
    requires q > 0 && x % q == y % q
    ensures (a * x) % q == (a * y) % q
  {
    ModMul(q, x, a);
    ModMul(q, y, a);
    assert a * x == x * a && a * y == y * a;
  }

  lemma {:induction false} PowSquare(b: int, h: nat)
    ensures Pow(b, 2 * h) == Pow(b * b, h)
  {
    if h == 0 {
    } else {
      PowSquare(b, h - 1);
      assert Pow(b, 2 * h) == b * (b * Pow(b, 2 * h - 2));
      assert b * (b * Pow(b, 2 * h - 2)) == (b * b) * Pow(b, 2 * h - 2);
    }
  }

  lemma {:induction false} PowMod(q: int, b: int, e: nat)
    requires q > 0
    ensures Pow(b % q, e) % q == Pow(b, e) % q
  {
    if e == 0 {
    } else {
      PowMod(q, b, e - 1);
      ProductMod(q, b % q, Pow(b % q, e - 1), Pow(b, e - 1));
      ModMul(q, b, Pow(b, e - 1));
    }
  }

  /** One step of square-and-multiply leaves acc base^e unchanged modulo q. */
  lemma PowStep(q: int, acc: int, base: int, e: nat)
    requires q > 0 && e > 0
    ensures ((if e % 2 == 1 then acc * base % q else acc) * Pow(base * base % q, e / 2)) % q == (acc * Pow(base, e)) % q
  {
    var h := e / 2;
    var p := Pow(base * base, h);
    PowSquare(base, h);
    PowMod(q, base * base, h);
    if e % 2 == 1 {
      assert e == 2 * h + 1;
      assert Pow(base, e) == base * p;
      assert acc * Pow(base, e) == (acc * base) * p;
      ProductMod(q, acc * base, p, Pow(base * base % q, h));
      ModMul(q, acc * base, Pow(base * base % q, h));
    } else {
      assert e == 2 * h;
      ProductMod(q, acc, p, Pow(base * base % q, h));
    }
  }

  /** x^(2^i), reduced, by i squarings. */
  function Squared(q: int, x: int, i: nat): (r: int)
    requires q > 0
  {
    if i == 0 then x % q else Mul(q, Squared(q, x, i - 1), Squared(q, x, i - 1))
  }

  lemma {:induction false} SquaredIsPow(q: int, x: int, i: nat)
    requires q > 0
    ensures Pow(2, i) > 0 && Squared(q, x, i) == Pow(x, Pow(2, i)) % q
  {
    PowPositive(2, i);
    if i == 0 {
    } else {
      SquaredIsPow(q, x, i - 1);
      PowModAdd(q, x, Pow(2, i - 1), Pow(2, i - 1));
    }
  }

  lemma Base(q: int, x: int)
    requires 0 <= x < q
    ensures Squared(q, x, 0) == x
  {
    ModOf(q, 0, x);
  }

  lemma Square(q: int, base: int, i: nat, x: int, y: int)
    requires q > 0 && Squared(q, base, i) == x && (x * x) % q == y
    ensures Squared(q, base, i + 1) == y
  {
  }

  lemma PowZero(b: int)
    ensures Pow(b, 0) == 1
  {
  }

  function Pow2(b: nat): (p: nat)
    ensures p > 0
  {
    PowPositive(2, b);
    Pow(2, b)
  }
}
