/**
 * The group mixing (`mix_groups`): the state is cut into eight segments
 * (15 bits for DIZY-80, 20 for DIZY-128) and reassembled in the order
 * 0, 4, 1, 5, 2, 6, 3, 7, segment 0 being the most significant.
 */
module GroupMix {
  import opened Bits
  import opened Groups
  import opened Variants

  const NO_SEGMENTS: nat := 8

  /** The order in which `mix_groups` reads the segments. */
  const MIX_ORDER: seq<nat> := [0, 4, 1, 5, 2, 6, 3, 7]

  /** The order that undoes the mixing; the source has no inverse, it witnesses that mixing is a bijection. */
  const UNMIX_ORDER: seq<nat> := [0, 2, 4, 6, 1, 3, 5, 7]

  /** `get_state_size() // 8`: the segment width */
  function SegmentSize(variant: Variant): (w: nat)
    ensures NO_SEGMENTS * w == variant.StateSize()
  {
    variant.StateSize() / 8
  }

  /** An order names eight segments. */
  predicate IsOrder(order: seq<nat>)
  {
    |order| == NO_SEGMENTS && forall k | 0 <= k < NO_SEGMENTS :: order[k] < NO_SEGMENTS
  }

  /** The segments of `state` taken in the given order. */
  function Segments(state: nat, order: seq<nat>, w: nat): (parts: seq<nat>)
    requires IsOrder(order)
    ensures |parts| == NO_SEGMENTS && Fit(parts, w)
  {
    seq(NO_SEGMENTS, k requires 0 <= k < NO_SEGMENTS => GetGroup(order[k], w, NO_SEGMENTS, state))
  }

  /** The segments of `state` reassembled in the given order. */
  function Reordered(state: nat, order: seq<nat>, w: nat): nat
    requires IsOrder(order)
  {
    Pack(Segments(state, order, w), w)
  }

  /** The state `mix_groups` returns. */
  function Mixed(state: nat, variant: Variant): nat
  {
    Reordered(state, MIX_ORDER, SegmentSize(variant))
  }

  /** The inverse mixing. */
  function Unmixed(state: nat, variant: Variant): nat
  {
    Reordered(state, UNMIX_ORDER, SegmentSize(variant))
  }

  /** `mix_groups` */
  method MixGroups(state: nat, variant: Variant) returns (newState: nat)
    ensures newState == Mixed(state, variant)
  {
    var groupSize := variant.StateSize() / 8;
    ghost var parts := Segments(state, MIX_ORDER, groupSize);
    var order := MIX_ORDER;
    newState := 0;
    for k := 0 to |order|
      invariant newState == Pack(parts[..k], groupSize)
    {
      var i := order[k];
      var group := GetGroup(i, groupSize, NO_SEGMENTS, state);
      PackSnoc(parts, k, groupSize);
      newState := Or(Shl(newState, groupSize), group);
    }
    assert parts[..NO_SEGMENTS] == parts;
  }

  // ---------------------------------------------------------------------------

  /** Segment k of the result is segment `order[k]` of the input. */
  lemma ReorderedSegment(state: nat, order: seq<nat>, w: nat, k: nat)
    requires IsOrder(order) && k < NO_SEGMENTS
    ensures GetGroup(k, w, NO_SEGMENTS, Reordered(state, order, w)) == GetGroup(order[k], w, NO_SEGMENTS, state)
  {
    PackGroup(Segments(state, order, w), w, k);
  }

  /** Reassembling fits eight segments, however wide the input is. */
  lemma ReorderedBound(state: nat, order: seq<nat>, w: nat)
    requires IsOrder(order)
    ensures Reordered(state, order, w) < Pow2(NO_SEGMENTS * w)
  {
    PackBound(Segments(state, order, w), w);
    MulIsProduct(NO_SEGMENTS, w);
  }

  /** Reordering by one order and then by another is reordering by their composition. */
  lemma ReorderedTwice(state: nat, first: seq<nat>, second: seq<nat>, w: nat)
    requires IsOrder(first) && IsOrder(second)
    requires state < Pow2(NO_SEGMENTS * w)
    requires forall k | 0 <= k < NO_SEGMENTS :: first[second[k]] == k
    ensures Reordered(Reordered(state, first, w), second, w) == state
  {
    var once := Reordered(state, first, w);
    ReorderedBound(once, second, w);
    forall k | 0 <= k < NO_SEGMENTS
      ensures GetGroup(k, w, NO_SEGMENTS, Reordered(once, second, w)) == GetGroup(k, w, NO_SEGMENTS, state)
    {
      ReorderedSegment(once, second, w, k);
      ReorderedSegment(state, first, w, second[k]);
    }
    MulIsProduct(NO_SEGMENTS, w);
    GroupsEqual(Reordered(once, second, w), state, w, NO_SEGMENTS);
  }

  /** Both orders are orders, and each undoes the other. */
  lemma OrdersInverse()
    ensures IsOrder(MIX_ORDER) && IsOrder(UNMIX_ORDER)
    ensures forall k | 0 <= k < NO_SEGMENTS :: MIX_ORDER[UNMIX_ORDER[k]] == k
    ensures forall k | 0 <= k < NO_SEGMENTS :: UNMIX_ORDER[MIX_ORDER[k]] == k
  {
  }

  /** Segment k of the mixed state is segment `[0, 4, 1, 5, 2, 6, 3, 7][k]` of the input. */
  lemma MixedSegment(state: nat, variant: Variant, k: nat)
    requires k < NO_SEGMENTS
    ensures GetGroup(k, SegmentSize(variant), NO_SEGMENTS, Mixed(state, variant))
         == GetGroup(MIX_ORDER[k], SegmentSize(variant), NO_SEGMENTS, state)
  {
    OrdersInverse();
    ReorderedSegment(state, MIX_ORDER, SegmentSize(variant), k);
  }

  /** The mixed state fits the state width, however wide the input is. */
  lemma MixedBound(state: nat, variant: Variant)
    ensures Mixed(state, variant) < Pow2(variant.StateSize())
  {
    OrdersInverse();
    ReorderedBound(state, MIX_ORDER, SegmentSize(variant));
  }

  /** Mixing is a bijection on states of the variant's width: the order 0, 2, 4, 6, 1, 3, 5, 7 undoes it on both sides. */
  lemma MixBijective(state: nat, variant: Variant)
    requires state < Pow2(variant.StateSize())
    ensures Unmixed(Mixed(state, variant), variant) == state
    ensures Mixed(Unmixed(state, variant), variant) == state
  {
    OrdersInverse();
    var w := SegmentSize(variant);
    ReorderedTwice(state, MIX_ORDER, UNMIX_ORDER, w);
    ReorderedTwice(state, UNMIX_ORDER, MIX_ORDER, w);
  }
}
