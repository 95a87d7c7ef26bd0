/**
 * The S-box layer (`sbox`, `apply_sbox`): every 5-bit lane of the state is
 * replaced by its image under a fixed 5-bit S-box.
 */
module Substitution {
  import opened Bits
  import opened Groups
  import opened Variants

  /** The DIZY S-box, indexed by the lane value. */
  const SBOX: seq<nat> := [
    0x00, 0x04, 0x0e, 0x09,
    0x0d, 0x0b, 0x1e, 0x1b,
    0x1c, 0x14, 0x13, 0x18,
    0x17, 0x1d, 0x05, 0x0c,
    0x0f, 0x11, 0x08, 0x15,
    0x03, 0x1f, 0x19, 0x06,
    0x10, 0x02, 0x16, 0x07,
    0x1a, 0x0a, 0x01, 0x12]

  /** The inverse of the S-box; the source has no inverse, it witnesses that the S-box is a permutation. */
  const SBOX_INV: seq<nat> := [
    0x00, 0x1e, 0x19, 0x14,
    0x01, 0x0e, 0x17, 0x1b,
    0x12, 0x03, 0x1d, 0x05,
    0x0f, 0x04, 0x02, 0x10,
    0x18, 0x11, 0x1f, 0x0a,
    0x09, 0x13, 0x1a, 0x0c,
    0x0b, 0x16, 0x1c, 0x07,
    0x08, 0x0d, 0x06, 0x15]

  /** `sbox`: the table entry for a lane value, masked to 5 bits (indexing past the table is an error in the source) */
  function SBox(group: nat): (r: nat)
    requires group < |SBOX|
    ensures r < Pow2(5)
  {
    MaskBitsBound(SBOX[group], 5);
    MaskBits(SBOX[group], 5)
  }

  /** The S-box images of the n lanes of `state`, most significant first. */
  function SubstitutedLanes(state: nat, n: nat): (lanes: seq<nat>)
    ensures |lanes| == n && Fit(lanes, 5)
  {
    seq(n, k requires 0 <= k < n => SBox(GetGroup(k, 5, n, state)))
  }

  /** The state `apply_sbox` returns: each lane of the variant replaced by its S-box image. */
  function Substituted(state: nat, variant: Variant): nat
  {
    Pack(SubstitutedLanes(state, variant.Lanes()), 5)
  }

  /** The inverse layer: each lane replaced by its image under the inverse table. */
  function Unsubstituted(state: nat, variant: Variant): nat
  {
    var n := variant.Lanes();
    Pack(seq(n, k requires 0 <= k < n => SBOX_INV[GetGroup(k, 5, n, state)]), 5)
  }

  /** `apply_sbox` */
  method ApplySBox(state: nat, variant: Variant) returns (newState: nat)
    ensures newState == Substituted(state, variant)
  {
    var noGroups := variant.StateSize() / 5;
    ghost var lanes := SubstitutedLanes(state, noGroups);
    newState := 0;
    for i := 0 to noGroups // LSB to MSB
      invariant newState == PackLow(lanes, i, 5)
    {
      var shamt := i * 5;
      var group := MaskBits(Shr(state, shamt), 5);
      LowGroup(state, noGroups, i);
      var mappedGroup := SBox(group);
      MulIsProduct(i, 5);
      newState := Or(newState, Shl(mappedGroup, shamt));
    }
    PackLowIsPack(lanes, noGroups, 5);
    assert lanes[0..] == lanes;
  }

  /** The lane `apply_sbox` reads at shift i*5 is lane `n - 1 - i` counted from the top, and indexes the table. */
  lemma LowGroup(state: nat, n: nat, i: nat)
    requires i < n
    ensures MaskBits(Shr(state, i * 5), 5) == GetGroup(n - 1 - i, 5, n, state) < |SBOX|
  {
    assert n - (n - 1 - i + 1) == i;
    MulIsProduct(i, 5);
    assert Pow2(5) == 32;
  }

  // ---------------------------------------------------------------------------

  /** Every table entry already fits in 5 bits, so the mask in `sbox` never changes it. */
  lemma SBoxIsTable(g: nat)
    requires g < |SBOX|
    ensures SBox(g) == SBOX[g]
  {
    TablesFit();
    assert Pow2(5) == 32;
    MaskBitsOfSmall(SBOX[g], 5);
  }

  /** Every entry of both tables fits in 5 bits. */
  lemma TablesFit()
    ensures forall g | 0 <= g < 32 :: SBOX[g] < 32
    ensures forall g | 0 <= g < 32 :: SBOX_INV[g] < 32
  {
  }

  lemma SBoxInverse0()
    ensures forall g | 0 <= g < 8 :: SBOX_INV[SBOX[g]] == g
  {
  }

  lemma SBoxInverse8()
    ensures forall g | 8 <= g < 16 :: SBOX_INV[SBOX[g]] == g
  {
  }

  lemma SBoxInverse16()
    ensures forall g | 16 <= g < 24 :: SBOX_INV[SBOX[g]] == g
  {
  }

  lemma SBoxInverse24()
    ensures forall g | 24 <= g < 32 :: SBOX_INV[SBOX[g]] == g
  {
  }

  lemma SBoxInverseRight0()
    ensures forall g | 0 <= g < 8 :: SBOX[SBOX_INV[g]] == g
  {
  }

  lemma SBoxInverseRight8()
    ensures forall g | 8 <= g < 16 :: SBOX[SBOX_INV[g]] == g
  {
  }

  lemma SBoxInverseRight16()
    ensures forall g | 16 <= g < 24 :: SBOX[SBOX_INV[g]] == g
  {
  }

  lemma SBoxInverseRight24()
    ensures forall g | 24 <= g < 32 :: SBOX[SBOX_INV[g]] == g
  {
  }

  /** The S-box is a permutation of the 32 lane values. */
  lemma SBoxPermutation(g: nat, h: nat)
    requires g < 32 && h < 32
    ensures SBox(g) < 32
    ensures SBox(g) == SBox(h) <==> g == h
    ensures SBOX_INV[SBox(g)] == g && SBox(SBOX_INV[g]) == g
  {
    TablesFit();
    SBoxIsTable(g);
    SBoxIsTable(h);
    SBoxInverse0();
    SBoxInverse8();
    SBoxInverse16();
    SBoxInverse24();
    SBoxInverseRight0();
    SBoxInverseRight8();
    SBoxInverseRight16();
    SBoxInverseRight24();
    SBoxIsTable(SBOX_INV[g]);
  }

  /** Lane k of the result is the S-box image of lane k of the input. */
  lemma SubstitutedLane(state: nat, variant: Variant, k: nat)
    requires k < variant.Lanes()
    ensures GetGroup(k, 5, variant.Lanes(), Substituted(state, variant))
         == SBox(GetGroup(k, 5, variant.Lanes(), state))
  {
    PackGroup(SubstitutedLanes(state, variant.Lanes()), 5, k);
  }

  /** The result fits the state width, however wide the input is. */
  lemma SubstitutedBound(state: nat, variant: Variant)
    ensures Substituted(state, variant) < Pow2(variant.StateSize())
  {
    var n := variant.Lanes();
    PackBound(SubstitutedLanes(state, n), 5);
    MulIsProduct(n, 5);
  }

  /** Lane k of the inverse layer's result is the inverse image of lane k. */
  lemma UnsubstitutedLane(state: nat, variant: Variant, k: nat)
    requires k < variant.Lanes()
    ensures GetGroup(k, 5, variant.Lanes(), Unsubstituted(state, variant))
         == SBOX_INV[GetGroup(k, 5, variant.Lanes(), state)]
  {
    var n := variant.Lanes();
    var lanes := seq(n, j requires 0 <= j < n => SBOX_INV[GetGroup(j, 5, n, state)]);
    TablesFit();
    assert Pow2(5) == 32;
    PackGroup(lanes, 5, k);
  }

  lemma UnsubstitutedBound(state: nat, variant: Variant)
    ensures Unsubstituted(state, variant) < Pow2(variant.StateSize())
  {
    var n := variant.Lanes();
    var lanes := seq(n, j requires 0 <= j < n => SBOX_INV[GetGroup(j, 5, n, state)]);
    TablesFit();
    assert Pow2(5) == 32;
    PackBound(lanes, 5);
    MulIsProduct(n, 5);
  }

  /** The S-box layer is a bijection on the states of the variant's width: the inverse layer undoes it on both sides. */
  lemma SubstitutionBijective(state: nat, variant: Variant)
    requires state < Pow2(variant.StateSize())
    ensures Unsubstituted(Substituted(state, variant), variant) == state
    ensures Substituted(Unsubstituted(state, variant), variant) == state
  {
    var n := variant.Lanes();
    assert Pow2(5) == 32;
    MulIsProduct(n, 5);
    var t := Substituted(state, variant);
    var u := Unsubstituted(state, variant);
    SubstitutedBound(state, variant);
    UnsubstitutedBound(t, variant);
    UnsubstitutedBound(state, variant);
    SubstitutedBound(u, variant);
    forall k | 0 <= k < n
      ensures GetGroup(k, 5, n, Unsubstituted(t, variant)) == GetGroup(k, 5, n, state)
      ensures GetGroup(k, 5, n, Substituted(u, variant)) == GetGroup(k, 5, n, state)
    {
      var g := GetGroup(k, 5, n, state);
      SubstitutedLane(state, variant, k);
      UnsubstitutedLane(t, variant, k);
      UnsubstitutedLane(state, variant, k);
      SubstitutedLane(u, variant, k);
      SBoxPermutation(g, g);
    }
    GroupsEqual(Unsubstituted(t, variant), state, 5, n);
    GroupsEqual(Substituted(u, variant), state, 5, n);
  }
}
