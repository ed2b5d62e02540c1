/** The prime modulus the sparse array's keys must lie below. */
module Field {

  /** A field element is an arbitrary-precision non-negative integer. */
  type FieldElement = nat

  /**
   * The library's modulus, the BN254 base-field prime; every key and the
   * table maximum must lie below it.
   */
  const FieldModulus: nat := 21888242871839275222246405745257275088696311157297823662689037894645226208583
}
