/** The parameter sets of FIPS 203 and the lengths that follow from them: macula-mlkem/src/lib.rs. */
module MlKemParams {

  datatype ParameterSet = ParameterSet(k: nat, eta1: nat, eta2: nat, du: nat, dv: nat)

  const ML_KEM_512 := ParameterSet(2, 3, 2, 10, 4)
  const ML_KEM_768 := ParameterSet(3, 2, 2, 10, 4)
  const ML_KEM_1024 := ParameterSet(4, 2, 2, 11, 5)

  predicate IsParameterSet(p: ParameterSet) {
    p == ML_KEM_512 || p == ML_KEM_768 || p == ML_KEM_1024
  }

  function EncapsKeyLen(p: ParameterSet): nat {
    384 * p.k + 32
  }

  function DecapsKeyLen(p: ParameterSet): nat {
    768 * p.k + 96
  }

  function CiphertextLen(p: ParameterSet): nat {
    32 * (p.du * p.k + p.dv)
  }

  lemma Sizes(p: ParameterSet)
    requires IsParameterSet(p)
    ensures 2 <= p.k <= 4 && 2 <= p.eta1 <= 3 && p.eta2 == 2 && 10 <= p.du <= 11 && 4 <= p.dv <= 5
  {
  }
}
