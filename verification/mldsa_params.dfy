/** The parameter sets of FIPS 204 and the lengths that follow from them: macula-mldsa/src/lib.rs. */
module MlDsaParams {
  import opened MlDsaArith

  datatype ParameterSet = ParameterSet(tau: nat, lambda: nat, gamma1: int, gamma2: int, k: nat, l: nat, eta: int,
    omega: nat)

  const ML_DSA_44 := ParameterSet(39, 128, 0x2_0000, (Q - 1) / 88, 4, 4, 2, 80)
  const ML_DSA_65 := ParameterSet(49, 192, 0x8_0000, (Q - 1) / 32, 6, 5, 4, 55)
  const ML_DSA_87 := ParameterSet(60, 256, 0x8_0000, (Q - 1) / 32, 8, 7, 2, 75)

  predicate IsParameterSet(p: ParameterSet) {
    p == ML_DSA_44 || p == ML_DSA_65 || p == ML_DSA_87
  }

  function Beta(p: ParameterSet): int {
    p.tau * p.eta
  }

  function ZBits(p: ParameterSet): nat {
    if p.gamma1 == 0x2_0000 then 18 else 20
  }

  function W1Bits(p: ParameterSet): nat {
    if p.gamma2 == (Q - 1) / 88 then 6 else 4
  }

  function EtaBits(p: ParameterSet): nat {
    if p.eta == 2 then 3 else 4
  }

  function CommitmentLen(p: ParameterSet): nat {
    p.lambda / 4
  }

  function PublicKeyLen(p: ParameterSet): nat {
    32 + 32 * p.k * 10
  }

  function PrivateKeyLen(p: ParameterSet): nat {
    32 + 32 + 64 + 32 * ((p.l + p.k) * EtaBits(p) + D * p.k)
  }

  function SignatureLen(p: ParameterSet): nat {
    p.lambda / 4 + p.l * 32 * ZBits(p) + p.omega + p.k
  }

  /** What the proofs use about the three sets. */
  lemma Sizes(p: ParameterSet)
    requires IsParameterSet(p)
    ensures IsGamma2(p.gamma2) && (p.gamma1 == 0x2_0000 || p.gamma1 == 0x8_0000)
    ensures 1 <= p.k <= 8 && 1 <= p.l <= 7 && p.omega <= 80 && p.tau <= 60
    ensures p.eta == 2 || p.eta == 4
    ensures 0 < Beta(p) < p.gamma2 && Beta(p) < p.gamma1
  {
  }
}
