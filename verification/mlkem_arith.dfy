/** The scalar arithmetic of ML-KEM: macula-mlkem/src/poly.rs, q = 3329. */
module MlKemArith {
  import opened Machine
  import M = Modular

  const Q := 3329

  /** Barrett reduction with rounding: the remainder modulo q of any product of two coefficients and
      of its negation. */
  function Reduce(a: int): (r: int)
    requires -3328 * 3328 <= a <= 3328 * 3328
    ensures r == a % Q && 0 <= r < Q
  {
    var v := 0x400_0000 / Q;
    var t := I64(I64(I64(v * I32(a)) + 0x200_0000) / 0x400_0000 * Q);
    var r := I64(a - t);
    I16(I64(r + WhenNegative(r, Q)))
  }

  function MulQ(a: int, b: int): (r: int)
    requires 0 <= a < Q && 0 <= b < Q
    ensures r == M.Mul(Q, a, b) && 0 <= r < Q
  {
    Scaled(a, 3328, b);
    Scaled(0, a, b);
    Reduce(I32(a * b))
  }

  function AddQ(a: int, b: int): (r: int)
    requires 0 <= a < Q && 0 <= b < Q
    ensures r == M.Add(Q, a, b) && 0 <= r < Q
  {
    var s := I32(a + b);
    I16(s - WhenNegative(I32(Q - 1 - s), 1) * Q)
  }

  function SubQ(a: int, b: int): (r: int)
    requires 0 <= a < Q && 0 <= b < Q
    ensures r == M.Sub(Q, a, b) && 0 <= r < Q
  {
    var d := I32(a - b);
    I16(d + WhenNegative(d, Q))
  }
}
