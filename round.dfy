/**
 * `round`: one DIZY round, the four layers in the source's order.
 */
module RoundFunction {
  import opened Bits
  import opened Variants
  import opened ConstAddition
  import opened Substitution
  import opened LinearLayer
  import opened GroupMix

  /**
   * `round`: constant addition, the S-box layer, the linear layer and the
   * group mixing. The result fits the state width whatever the input, as
   * the mixing keeps only eight segments of the state width.
   */
  function Round(state: nat, roundConstant: nat, variant: Variant): (r: nat)
    ensures r < Pow2(variant.StateSize())
  {
    var afterSBox := Substituted(ConstAdded(state, roundConstant, variant), variant);
    var afterMatrix := MatrixApplied(afterSBox, variant);
    MixedBound(afterMatrix, variant);
    Mixed(afterMatrix, variant)
  }
}
