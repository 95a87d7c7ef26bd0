/**
 * Key and IV injection (`xor_key_part`): a key part of `keyPartSize` bits is
 * read two bits at a time from its most-significant end, and pair i is
 * XOR-ed into the two most-significant bits of lane i of the state.
 *
 * Python's `<<` rejects a negative shift count with an exception. Pair i is
 * shifted by `state_size - (i+1)*5 + 3`, which is negative once the key part
 * names more pairs than the state has lanes, so the model returns an
 * `Outcome` that records this error.
 */
module KeyInjection {
  import opened Bits
  import opened Groups
  import opened Variants

  /** What `xor_key_part` returns, or the `ValueError` a negative shift count raises. */
  datatype Outcome = Ok(state: nat) | NegativeShiftCount

  /** `mask_bits(key_part >> key_shamt, 2)`: pair i of the key part, counted from its most-significant end */
  function KeyPair(keyPart: nat, keyPartSize: nat, i: nat): (pair: nat)
    requires (i + 1) * 2 <= keyPartSize
    ensures pair < 4
  {
    MaskBitsBound(Shr(keyPart, keyPartSize - (i + 1) * 2), 2);
    assert Pow2(2) == 4;
    MaskBits(Shr(keyPart, keyPartSize - (i + 1) * 2), 2)
  }

  /** `state_align_shamt`: the shift that places pair i one bit below the top of lane i */
  function AlignShift(variant: Variant, i: nat): int
  {
    variant.StateSize() - (i + 1) * 5 + 3
  }

  /** The XOR of the first k pairs, each shifted into its lane. */
  function Injection(keyPart: nat, keyPartSize: nat, variant: Variant, k: nat): nat
    requires k <= keyPartSize / 2 && 5 * k <= variant.StateSize() + 3
    decreases k
  {
    if k == 0 then 0
    else Xor(Injection(keyPart, keyPartSize, variant, k - 1),
             Shl(KeyPair(keyPart, keyPartSize, k - 1), AlignShift(variant, k - 1) as nat))
  }

  /**
   * What `xor_key_part` returns: the state with every pair injected, or the
   * error raised when the last pair's shift would be negative.
   */
  function KeyXored(state: nat, keyPart: nat, keyPartSize: nat, variant: Variant): Outcome
  {
    if 5 * (keyPartSize / 2) > variant.StateSize() + 3 then NegativeShiftCount
    else Ok(Xor(state, Injection(keyPart, keyPartSize, variant, keyPartSize / 2)))
  }

  /** `xor_key_part` */
  method XorKeyPart(state: nat, keyPart: nat, keyPartSize: nat, variant: Variant) returns (r: Outcome)
    ensures r == KeyXored(state, keyPart, keyPartSize, variant)
  {
    var noGroups := keyPartSize / 2;
    var s := state;
    XorZero(state);
    for i := 0 to noGroups // MSB to LSB
      invariant 5 * i <= variant.StateSize() + 3
      invariant s == Xor(state, Injection(keyPart, keyPartSize, variant, i))
    {
      var keyShamt := keyPartSize - (i + 1) * 2;
      var keyMsbs := MaskBits(Shr(keyPart, keyShamt), 2);
      var stateAlignShamt := variant.StateSize() - (i + 1) * 5 + 3;
      if stateAlignShamt < 0 {
        return NegativeShiftCount;
      }
      InjectionStep(state, keyPart, keyPartSize, variant, i);
      s := Xor(s, Shl(keyMsbs, stateAlignShamt));
    }
    return Ok(s);
  }

  /** One iteration of `xor_key_part` injects the next pair. */
  lemma InjectionStep(state: nat, keyPart: nat, keyPartSize: nat, variant: Variant, i: nat)
    requires i < keyPartSize / 2 && 5 * (i + 1) <= variant.StateSize() + 3
    ensures Xor(Xor(state, Injection(keyPart, keyPartSize, variant, i)),
                Shl(MaskBits(Shr(keyPart, keyPartSize - (i + 1) * 2), 2), variant.StateSize() - (i + 1) * 5 + 3))
         == Xor(state, Injection(keyPart, keyPartSize, variant, i + 1))
  {
    XorAssoc(state, Injection(keyPart, keyPartSize, variant, i), Shl(KeyPair(keyPart, keyPartSize, i), AlignShift(variant, i) as nat));
  }

  // ---------------------------------------------------------------------------

  /** The injection fails exactly when the key part has more pairs than the state has lanes. */
  lemma KeyXoredFails(state: nat, keyPart: nat, keyPartSize: nat, variant: Variant)
    ensures KeyXored(state, keyPart, keyPartSize, variant).NegativeShiftCount? <==> keyPartSize / 2 > variant.Lanes()
  {
  }

  /** The injection has no bit at a position that is not one of the pairs' two places. */
  lemma {:induction false} InjectionBit(keyPart: nat, keyPartSize: nat, variant: Variant, k: nat, p: nat)
    requires k <= keyPartSize / 2 && 5 * k <= variant.StateSize() + 3
    requires forall i | 0 <= i < k :: p != AlignShift(variant, i) && p != AlignShift(variant, i) + 1
    ensures GetBit(Injection(keyPart, keyPartSize, variant, k), p) == 0
  {
    if k == 0 {
      GetBitOfZero(p);
    } else {
      var pair := KeyPair(keyPart, keyPartSize, k - 1);
      var shift := AlignShift(variant, k - 1) as nat;
      InjectionBit(keyPart, keyPartSize, variant, k - 1, p);
      GetBitXor(Injection(keyPart, keyPartSize, variant, k - 1), Shl(pair, shift), p);
      GetBitShl(pair, shift, p);
      if shift <= p {
        assert Pow2(2) == 4;
        HighBitsZero(pair, 2, p - shift);
      }
    }
  }

  /**
   * `xor_key_part` changes only the bits at `state_size - (i+1)*5 + 3` and
   * `+ 4` for the pairs i it injects.
   */
  lemma XorKeyPartTouches(state: nat, keyPart: nat, keyPartSize: nat, variant: Variant, p: nat)
    requires keyPartSize / 2 <= variant.Lanes()
    requires forall i | 0 <= i < keyPartSize / 2 :: p != AlignShift(variant, i) && p != AlignShift(variant, i) + 1
    ensures KeyXored(state, keyPart, keyPartSize, variant).Ok?
    ensures GetBit(KeyXored(state, keyPart, keyPartSize, variant).state, p) == GetBit(state, p)
  {
    var k := keyPartSize / 2;
    InjectionBit(keyPart, keyPartSize, variant, k, p);
    GetBitXor(state, Injection(keyPart, keyPartSize, variant, k), p);
  }

  /** A pair shifted by the alignment of lane i sits in the two top bits of lane i and nowhere else. */
  lemma PlacedPairLane(pair: nat, variant: Variant, i: nat, j: nat)
    requires pair < 4 && i < variant.Lanes() && j < variant.Lanes()
    ensures AlignShift(variant, i) >= 0
    ensures GetGroup(j, 5, variant.Lanes(), Shl(pair, AlignShift(variant, i) as nat)) == if j == i then Shl(pair, 3) else 0
  {
    var n := variant.Lanes();
    var m := Mul(n - 1 - i, 5);
    MulIsProduct(n - 1 - i, 5);
    ShlShl(pair, 3, m);
    assert AlignShift(variant, i) == 3 + m;
    assert Pow2(2) == 4;
    ShlBound(pair, 3, 2);
    LanePlaced(Shl(pair, 3), i, j, 5, n);
  }

  /** Lane j of the injection holds pair j in its two top bits when j < k, and nothing otherwise. */
  lemma {:induction false} InjectionLane(keyPart: nat, keyPartSize: nat, variant: Variant, k: nat, j: nat)
    requires k <= keyPartSize / 2 && 5 * k <= variant.StateSize() + 3 && j < variant.Lanes()
    ensures GetGroup(j, 5, variant.Lanes(), Injection(keyPart, keyPartSize, variant, k))
         == if j < k then Shl(KeyPair(keyPart, keyPartSize, j), 3) else 0
  {
    var n := variant.Lanes();
    if k == 0 {
      GetGroupZero(j, 5, n);
    } else {
      var pair := KeyPair(keyPart, keyPartSize, k - 1);
      var before := Injection(keyPart, keyPartSize, variant, k - 1);
      var placed := Shl(pair, AlignShift(variant, k - 1) as nat);
      PlacedPairLane(pair, variant, k - 1, j);
      InjectionLane(keyPart, keyPartSize, variant, k - 1, j);
      GetGroupXor(j, 5, n, before, placed);
      XorZero(GetGroup(j, 5, n, before));
      XorZero(GetGroup(j, 5, n, placed));
    }
  }

  /**
   * Lane j of the result is lane j of the input with pair j XOR-ed into its
   * two top bits when j is one of the injected pairs, and unchanged otherwise.
   */
  lemma XorKeyPartLanes(state: nat, keyPart: nat, keyPartSize: nat, variant: Variant, j: nat)
    requires keyPartSize / 2 <= variant.Lanes() && j < variant.Lanes()
    ensures KeyXored(state, keyPart, keyPartSize, variant).Ok?
    ensures GetGroup(j, 5, variant.Lanes(), KeyXored(state, keyPart, keyPartSize, variant).state)
         == if j < keyPartSize / 2
            then Xor(GetGroup(j, 5, variant.Lanes(), state), Shl(KeyPair(keyPart, keyPartSize, j), 3))
            else GetGroup(j, 5, variant.Lanes(), state)
  {
    var n := variant.Lanes();
    var k := keyPartSize / 2;
    InjectionLane(keyPart, keyPartSize, variant, k, j);
    GetGroupXor(j, 5, n, state, Injection(keyPart, keyPartSize, variant, k));
    XorZero(GetGroup(j, 5, n, state));
  }

  /** The low three bits of every lane are unchanged; the top two bits of lane j < keyPartSize/2 are XOR-ed with pair j. */
  lemma XorKeyPartLaneBits(state: nat, keyPart: nat, keyPartSize: nat, variant: Variant, j: nat)
    requires keyPartSize / 2 <= variant.Lanes() && j < variant.Lanes()
    ensures KeyXored(state, keyPart, keyPartSize, variant).Ok?
    ensures MaskBits(GetGroup(j, 5, variant.Lanes(), KeyXored(state, keyPart, keyPartSize, variant).state), 3)
         == MaskBits(GetGroup(j, 5, variant.Lanes(), state), 3)
    ensures Shr(GetGroup(j, 5, variant.Lanes(), KeyXored(state, keyPart, keyPartSize, variant).state), 3)
         == if j < keyPartSize / 2
            then Xor(Shr(GetGroup(j, 5, variant.Lanes(), state), 3), KeyPair(keyPart, keyPartSize, j))
            else Shr(GetGroup(j, 5, variant.Lanes(), state), 3)
  {
    var g := GetGroup(j, 5, variant.Lanes(), state);
    XorKeyPartLanes(state, keyPart, keyPartSize, variant, j);
    if j < keyPartSize / 2 {
      var pair := KeyPair(keyPart, keyPartSize, j);
      MaskXor(g, Shl(pair, 3), 3);
      MaskShl(pair, 3);
      XorZero(MaskBits(g, 3));
      ShrXor(g, Shl(pair, 3), 3);
      ShrShl(pair, 3);
    }
  }

  /** Injecting the same key part twice restores the state. */
  lemma XorKeyPartInvolution(state: nat, keyPart: nat, keyPartSize: nat, variant: Variant)
    requires keyPartSize / 2 <= variant.Lanes()
    ensures KeyXored(state, keyPart, keyPartSize, variant).Ok?
    ensures KeyXored(KeyXored(state, keyPart, keyPartSize, variant).state, keyPart, keyPartSize, variant) == Ok(state)
  {
    XorSelfInverse(state, Injection(keyPart, keyPartSize, variant, keyPartSize / 2));
  }

  /** The injection stays below the state width. */
  lemma {:induction false} InjectionBound(keyPart: nat, keyPartSize: nat, variant: Variant, k: nat)
    requires k <= keyPartSize / 2 && 5 * k <= variant.StateSize() + 3
    ensures Injection(keyPart, keyPartSize, variant, k) < Pow2(variant.StateSize())
  {
    if k > 0 {
      var pair := KeyPair(keyPart, keyPartSize, k - 1);
      var shift := AlignShift(variant, k - 1) as nat;
      InjectionBound(keyPart, keyPartSize, variant, k - 1);
      assert Pow2(2) == 4;
      ShlBound(pair, shift, 2);
      Pow2Monotone(shift + 2, variant.StateSize());
      XorBound(Injection(keyPart, keyPartSize, variant, k - 1), Shl(pair, shift), variant.StateSize());
    }
  }

  /** A state of the variant's width stays within it. */
  lemma XorKeyPartBound(state: nat, keyPart: nat, keyPartSize: nat, variant: Variant)
    requires state < Pow2(variant.StateSize()) && keyPartSize / 2 <= variant.Lanes()
    ensures KeyXored(state, keyPart, keyPartSize, variant).Ok?
    ensures KeyXored(state, keyPart, keyPartSize, variant).state < Pow2(variant.StateSize())
  {
    var k := keyPartSize / 2;
    InjectionBound(keyPart, keyPartSize, variant, k);
    XorBound(state, Injection(keyPart, keyPartSize, variant, k), variant.StateSize());
  }

  /** Pair i reads only bits below `keyPartSize`. */
  lemma KeyPairOfMasked(keyPart: nat, keyPartSize: nat, i: nat)
    requires (i + 1) * 2 <= keyPartSize
    ensures KeyPair(MaskBits(keyPart, keyPartSize), keyPartSize, i) == KeyPair(keyPart, keyPartSize, i)
  {
    MaskedWindow(keyPart, keyPartSize, keyPartSize - (i + 1) * 2, 2);
  }

  /**
   * A key part of `narrow` bits read as `wide` bits: the first
   * `(wide - narrow) / 2` pairs are zero and the rest are its own pairs.
   */
  lemma KeyPairOfNarrow(keyPart: nat, narrow: nat, wide: nat, i: nat)
    requires narrow <= wide && narrow % 2 == 0 && wide % 2 == 0 && (i + 1) * 2 <= wide
    ensures var skipped := (wide - narrow) / 2;
            KeyPair(MaskBits(keyPart, narrow), wide, i) == if i < skipped then 0 else KeyPair(keyPart, narrow, i - skipped)
  {
    var shift := wide - (i + 1) * 2;
    MaskedWindow(keyPart, narrow, shift, 2);
  }

  /** Key parts with the same first k pairs give the same injection. */
  lemma {:induction false} InjectionCongruent(a: nat, b: nat, keyPartSize: nat, variant: Variant, k: nat)
    requires k <= keyPartSize / 2 && 5 * k <= variant.StateSize() + 3
    requires forall i | 0 <= i < k :: KeyPair(a, keyPartSize, i) == KeyPair(b, keyPartSize, i)
    ensures Injection(a, keyPartSize, variant, k) == Injection(b, keyPartSize, variant, k)
  {
    if k > 0 {
      InjectionCongruent(a, b, keyPartSize, variant, k - 1);
    }
  }

  /** `xor_key_part` depends on the key part only modulo `2**keyPartSize`: wider key parts are not rejected, their high bits are ignored. */
  lemma XorKeyPartIgnoresHighBits(state: nat, keyPart: nat, keyPartSize: nat, variant: Variant)
    ensures KeyXored(state, MaskBits(keyPart, keyPartSize), keyPartSize, variant)
         == KeyXored(state, keyPart, keyPartSize, variant)
  {
    var k := keyPartSize / 2;
    if 5 * k <= variant.StateSize() + 3 {
      forall i | 0 <= i < k
        ensures KeyPair(MaskBits(keyPart, keyPartSize), keyPartSize, i) == KeyPair(keyPart, keyPartSize, i)
      {
        KeyPairOfMasked(keyPart, keyPartSize, i);
      }
      InjectionCongruent(MaskBits(keyPart, keyPartSize), keyPart, keyPartSize, variant, k);
    }
  }
}
