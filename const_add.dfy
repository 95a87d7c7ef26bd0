/**
 * The round-constant addition (`const_add`): the constant is XOR-ed into
 * every 5-bit lane of the state, from the least-significant lane up.
 */
module ConstAddition {
  import opened Bits
  import opened Groups
  import opened Variants

  /** The constant shifted into each of the lowest k lanes, XOR-ed together. */
  function Broadcast(c: nat, k: nat): nat
    decreases k
  {
    if k == 0 then 0 else Xor(Broadcast(c, k - 1), Shl(c, (k - 1) * 5))
  }

  /** The state `const_add` returns. */
  function ConstAdded(state: nat, c: nat, variant: Variant): nat
  {
    Xor(state, Broadcast(c, variant.Lanes()))
  }

  /** `const_add` */
  method ConstAdd(state: nat, c: nat, variant: Variant) returns (r: nat)
    ensures r == ConstAdded(state, c, variant)
  {
    var noGroups := variant.StateSize() / 5;
    r := state;
    XorZero(state);
    for i := 0 to noGroups
      invariant r == Xor(state, Broadcast(c, i))
    {
      XorAssoc(state, Broadcast(c, i), Shl(c, i * 5));
      r := Xor(r, Shl(c, i * 5));
    }
  }

  // ---------------------------------------------------------------------------

  /** k copies of c. */
  function Repeat(c: nat, k: nat): (cs: seq<nat>)
    ensures |cs| == k && forall i | 0 <= i < k :: cs[i] == c
  {
    seq(k, _ => c)
  }

  /** A constant that fits in a lane is broadcast as k packed copies of itself. */
  lemma {:induction false} BroadcastPacked(c: nat, k: nat)
    requires c < Pow2(5)
    ensures Broadcast(c, k) == Pack(Repeat(c, k), 5)
    decreases k
  {
    if k == 0 {
    } else {
      var rest := Repeat(c, k - 1);
      assert Repeat(c, k) == [c] + rest;
      BroadcastPacked(c, k - 1);
      PackCons(c, rest, 5);
      MulIsProduct(k - 1, 5);
      PackBound(rest, 5);
      XorShlDisjoint(Pack(rest, 5), c, (k - 1) * 5);
    }
  }

  /** Adding the same constant twice restores the state. */
  lemma ConstAddInvolution(state: nat, c: nat, variant: Variant)
    ensures ConstAdded(ConstAdded(state, c, variant), c, variant) == state
  {
    XorSelfInverse(state, Broadcast(c, variant.Lanes()));
  }

  /** Every lane of the state is XOR-ed with the constant, and nothing else changes. */
  lemma ConstAddLane(state: nat, c: nat, variant: Variant, i: nat)
    requires c < Pow2(5) && i < variant.Lanes()
    ensures GetGroup(i, 5, variant.Lanes(), ConstAdded(state, c, variant))
         == Xor(GetGroup(i, 5, variant.Lanes(), state), c)
  {
    var n := variant.Lanes();
    BroadcastPacked(c, n);
    GetGroupXor(i, 5, n, state, Broadcast(c, n));
    PackGroup(Repeat(c, n), 5, i);
  }

  /** A 4-bit constant leaves the top bit of every lane unchanged. */
  lemma ConstAddKeepsTopBits(state: nat, c: nat, variant: Variant, i: nat)
    requires c < 16 && i < variant.Lanes()
    ensures GetBit(GetGroup(i, 5, variant.Lanes(), ConstAdded(state, c, variant)), 4)
         == GetBit(GetGroup(i, 5, variant.Lanes(), state), 4)
  {
    var n := variant.Lanes();
    assert Pow2(4) == 16;
    ConstAddLane(state, c, variant, i);
    GetBitXor(GetGroup(i, 5, n, state), c, 4);
    HighBitsZero(c, 4, 4);
  }

  /** A state of the variant's width stays within that width. */
  lemma ConstAddBound(state: nat, c: nat, variant: Variant)
    requires state < Pow2(variant.StateSize()) && c < Pow2(5)
    ensures ConstAdded(state, c, variant) < Pow2(variant.StateSize())
  {
    var n := variant.Lanes();
    BroadcastPacked(c, n);
    PackBound(Repeat(c, n), 5);
    MulIsProduct(n, 5);
    XorBound(state, Broadcast(c, n), variant.StateSize());
  }
}
