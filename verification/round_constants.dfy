/** Keccak's round constants from the shift register that FIPS 202 section 3.2.5 defines them by. */
module RoundConstants {
  import opened Keccak

  /** One step of the register: bit i moves to i + 1, and what leaves is added to bits 0, 4, 5 and 6. */
  function Shift(r: bv8): (s: bv8) {
    (r << 1) ^ (if r & 0x80 == 0 then 0 else 0x71)
  }

  /** The register after t steps, from 1. */
  function Register(t: nat): (r: bv8) {
    if t == 0 then 1 else Shift(Register(t - 1))
  }

  function Seven(r: bv8): (s: bv8) {
    Shift(Shift(Shift(Shift(Shift(Shift(Shift(r)))))))
  }

  /** rc(t): the lowest bit of the register, as a lane with bit 2^j - 1 set or none. */
  function Weighted(r: bv8, weight: bv64): (v: bv64) {
    if r & 1 == 0 then 0 else weight
  }

  /** Bit 2^j - 1 of round constant ir is rc(j + 7 ir). */
  function Constant(ir: nat): (v: bv64) {
    Or(Or(Or(Or(Or(Or(
      Weighted(Register(7 * ir), 0x1), Weighted(Register(7 * ir + 1), 0x2)), Weighted(Register(7 * ir + 2), 0x8)),
      Weighted(Register(7 * ir + 3), 0x80)), Weighted(Register(7 * ir + 4), 0x8000)),
      Weighted(Register(7 * ir + 5), 0x8000_0000)), Weighted(Register(7 * ir + 6), 0x8000_0000_0000_0000))
  }

  /** The same from the register at the start of the round. */
  function FromRegister(r: bv8): (v: bv64) {
    var r1 := Shift(r);
    var r2 := Shift(r1);
    var r3 := Shift(r2);
    var r4 := Shift(r3);
    var r5 := Shift(r4);
    var r6 := Shift(r5);
    Or(Or(Or(Or(Or(Or(
      Weighted(r, 0x1), Weighted(r1, 0x2)), Weighted(r2, 0x8)), Weighted(r3, 0x80)), Weighted(r4, 0x8000)),
      Weighted(r5, 0x8000_0000)), Weighted(r6, 0x8000_0000_0000_0000))
  }

  /** The register at the start of each round. */
  const STARTS: seq<bv8> := [1, 128, 216, 26, 223, 9, 53, 79, 202, 112, 65, 236, 213, 205, 99, 171, 170, 42, 242, 232,
    55, 62, 11, 68, 142]

  lemma NextSeven(t: nat)
    ensures Register(t + 7) == Seven(Register(t))
    ensures Register(t + 1) == Shift(Register(t)) && Register(t + 2) == Shift(Register(t + 1))
      && Register(t + 3) == Shift(Register(t + 2))
    ensures Register(t + 4) == Shift(Register(t + 3)) && Register(t + 5) == Shift(Register(t + 4))
      && Register(t + 6) == Shift(Register(t + 5))
  {
    hide Shift;
    assert Register(t + 1) == Shift(Register(t));
    assert Register(t + 2) == Shift(Register(t + 1));
    assert Register(t + 3) == Shift(Register(t + 2));
    assert Register(t + 4) == Shift(Register(t + 3));
    assert Register(t + 5) == Shift(Register(t + 4));
    assert Register(t + 6) == Shift(Register(t + 5));
  }

  lemma StartsBefore4(ir: nat)
    requires ir < 4
    ensures Seven(STARTS[ir]) == STARTS[ir + 1] && FromRegister(STARTS[ir]) == RC[ir]
  {
    if ir == 0 {} else if ir == 1 {} else if ir == 2 {} else {}
  }

  lemma StartsBefore8(ir: nat)
    requires 4 <= ir < 8
    ensures Seven(STARTS[ir]) == STARTS[ir + 1] && FromRegister(STARTS[ir]) == RC[ir]
  {
    if ir == 4 {} else if ir == 5 {} else if ir == 6 {} else {}
  }

  lemma StartsBefore12(ir: nat)
    requires 8 <= ir < 12
    ensures Seven(STARTS[ir]) == STARTS[ir + 1] && FromRegister(STARTS[ir]) == RC[ir]
  {
    if ir == 8 {} else if ir == 9 {} else if ir == 10 {} else {}
  }

  lemma StartsBefore16(ir: nat)
    requires 12 <= ir < 16
    ensures Seven(STARTS[ir]) == STARTS[ir + 1] && FromRegister(STARTS[ir]) == RC[ir]
  {
    if ir == 12 {} else if ir == 13 {} else if ir == 14 {} else {}
  }

  lemma StartsBefore20(ir: nat)
    requires 16 <= ir < 20
    ensures Seven(STARTS[ir]) == STARTS[ir + 1] && FromRegister(STARTS[ir]) == RC[ir]
  {
    if ir == 16 {} else if ir == 17 {} else if ir == 18 {} else {}
  }

  lemma StartsBefore24(ir: nat)
    requires 20 <= ir < 24
    ensures Seven(STARTS[ir]) == STARTS[ir + 1] && FromRegister(STARTS[ir]) == RC[ir]
  {
    if ir == 20 {} else if ir == 21 {} else if ir == 22 {} else {}
  }

  lemma Start(ir: nat, r: bv8)
    requires ir < 24 && r == STARTS[ir]
    ensures Seven(r) == STARTS[ir + 1] && FromRegister(r) == RC[ir]
  {
    if ir < 4 { StartsBefore4(ir); } else if ir < 8 { StartsBefore8(ir); } else if ir < 12 { StartsBefore12(ir); }
      else if ir < 16 { StartsBefore16(ir); } else if ir < 20 { StartsBefore20(ir); } else { StartsBefore24(ir); }
  }

  lemma {:induction false} RegisterAtRound(ir: nat)
    requires ir <= 24
    ensures Register(7 * ir) == STARTS[ir]
  {
    if ir == 0 {
    } else {
      RegisterAtRound(ir - 1);
      NextSeven(7 * (ir - 1));
      Start(ir - 1, STARTS[ir - 1]);
    }
  }

  lemma ConstantFromRegister(ir: nat)
    ensures Constant(ir) == FromRegister(Register(7 * ir))
  {
    hide Shift, Weighted, Register, Or;
    NextSeven(7 * ir);
  }

  /** The table is the standard's. */
  lemma ConstantsAreStandard(ir: nat)
    requires ir < 24
    ensures RC[ir] == Constant(ir)
  {
    hide Constant, FromRegister, Register, Seven;
    RegisterAtRound(ir);
    Start(ir, STARTS[ir]);
    ConstantFromRegister(ir);
  }
}
