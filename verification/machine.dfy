/** Machine integers, written out.

    Each function returns its argument and demands that it fit the Rust type named, so a formula
    whose intermediate values pass through these has been proved free of overflow. A shift right of
    a signed value is division rounding down, and the mask x >> 31 (or x >> 63) is all ones exactly when x is negative:
    "v & mask" is modelled as v when the masked sign is negative and 0 when it is not. */
module Machine {

  type Byte = x: int | 0 <= x < 256

  datatype Option<+T> = None | Some(value: T)

  function I16(x: int): int
    requires -0x8000 <= x < 0x8000
  {
    x
  }

  function I32(x: int): int
    requires -0x8000_0000 <= x < 0x8000_0000
  {
    x
  }

  function U32(x: int): int
    requires 0 <= x < 0x1_0000_0000
  {
    x
  }

  function I64(x: int): int
    requires -0x8000_0000_0000_0000 <= x < 0x8000_0000_0000_0000
  {
    x
  }

  function U64(x: int): int
    requires 0 <= x < 0x1_0000_0000_0000_0000
  {
    x
  }

  function U128(x: int): int
    requires 0 <= x < 0x1_0000_0000_0000_0000_0000_0000_0000_0000
  {
    x
  }

  /** v & (sign >> 31): v under the mask of sign's sign bit. */
  function WhenNegative(sign: int, v: int): int {
    if sign < 0 then v else 0
  }

  // ----- division by multiplication -----

  lemma Scaled(a: int, b: int, n: int)
    requires a <= b && 0 <= n
    ensures a * n <= b * n
  {
  }

  lemma Nonnegative(d: int, n: int, r: int)
    requires 0 < n && 0 <= d * n + r && r < n
    ensures 0 <= d
  {
    if d <= -1 { Scaled(d, -1, n); }
  }

  lemma Below(rest: int, n: int, k: int, xe: int, r: int)
    requires 0 < n && 0 < k && 0 <= r < n && xe < k && rest * n == xe + r * k
    ensures rest < k
  {
    Scaled(r, n - 1, k);
    if rest >= k { Scaled(k, rest, n); }
  }

  lemma Expand(d: int, n: int, r: int, m: int, k: int, e: int)
    requires m * n == k + e
    ensures (d * n + r) * m == d * k + (d * e + r * m)
    ensures (d * e + r * m) * n == (d * n + r) * e + r * k
  {
    assert (d * n + r) * m == d * (m * n) + r * m;
    assert d * (k + e) == d * k + d * e;
    assert (d * e + r * m) * n == d * n * e + r * (m * n);
    assert r * (k + e) == r * k + r * e;
    assert (d * n + r) * e == d * n * e + r * e;
  }

  /** x m = d k + (d e + r m), and the remainder is below k. */
  lemma ErrorTerm(d: int, n: int, r: int, m: int, k: int, e: int)
    requires 0 <= d && 0 <= r < n && 0 < k && m * n == k + e && 0 <= e && (d * n + r) * e < k
    ensures (d * n + r) * m == d * k + (d * e + r * m)
    ensures 0 <= d * e + r * m < k
  {
    Expand(d, n, r, m, k, e);
    Below(d * e + r * m, n, k, (d * n + r) * e, r);
    if m <= -1 { Scaled(m, -1, n); }
    Scaled(0, d, e);
    Scaled(0, r, m);
  }

  lemma QuotientIs(d: int, k: int, r: int)
    requires 0 <= r < k
    ensures (d * k + r) / k == d
  {
    var x := d * k + r;
    var t := x / k - d;
    assert x == (x / k) * k + x % k;
    assert t * k == r - x % k;
    if t >= 1 { Scaled(1, t, k); }
    if t <= -1 { Scaled(t, -1, k); }
  }

  /** Multiplying by m = ceil(k / n) and dividing by k is division by n, as long as the error of m,
      e = m n - k, accumulated x times stays below k. Both crates replace a division this way. */
  lemma CeilingMagic(x: int, n: int, m: int, k: int, e: int)
    requires 0 <= x && 0 < n && 0 < k && m * n == k + e && 0 <= e && x * e < k
    ensures x * m / k == x / n
  {
    var d, r := x / n, x % n;
    assert x == d * n + r;
    Nonnegative(d, n, r);
    ErrorTerm(d, n, r, m, k, e);
    QuotientIs(d, k, d * e + r * m);
  }

  lemma QuotientRange(x: int, n: int)
    requires 0 <= x && 0 < n
    ensures 0 <= x / n <= x
  {
    var d := x / n;
    assert x == d * n + x % n;
    if d <= -1 { Scaled(d, -1, n); }
    if d >= 0 { Scaled(1, n, d); }
  }
}
