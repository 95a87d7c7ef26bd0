/**
 * `init`: the DIZY state initialisation. Starting from the zero state, a
 * key phase and then an IV phase each run the 15 rounds; before round 0 the
 * upper part of the phase's value is injected, before round 1 its lower
 * part. Both injections use the upper part's width, so in DIZY-80 the lower
 * 32 bits are injected as if they were 48 bits wide and the 8 most
 * significant lanes receive only zero bits from them.
 */
module Initialization {
  import opened Bits
  import opened Groups
  import opened Variants
  import opened RoundConstantGenerator
  import opened RoundFunction
  import opened KeyInjection

  /** The `{DIZY_80: (48, 32), DIZY_128: (64, 64)}` lookup: the widths of the upper and the lower part of a key or IV */
  function PartSizes(variant: Variant): (sizes: (nat, nat))
    ensures sizes.0 + sizes.1 == variant.KeySize()
    ensures sizes.0 == 2 * variant.Lanes()
  {
    match variant
    case Dizy80 => (48, 32)
    case Dizy128 => (64, 64)
  }

  /** `xor_key_part` with a width that never makes a shift negative. */
  function Injected(state: nat, keyPart: nat, keyPartSize: nat, variant: Variant): (r: nat)
    requires keyPartSize / 2 <= variant.Lanes()
    ensures KeyXored(state, keyPart, keyPartSize, variant) == Ok(r)
  {
    KeyXored(state, keyPart, keyPartSize, variant).state
  }

  /**
   * The state a phase for `value` hands to round i: the upper part injected
   * before round 0, the lower part before round 1, both with the upper width.
   */
  function Absorb(state: nat, value: nat, variant: Variant, i: nat): nat
  {
    var (upperSize, lowerSize) := PartSizes(variant);
    if i == 0 then Injected(state, Shr(value, lowerSize), upperSize, variant)
    else if i == 1 then Injected(state, MaskBits(value, lowerSize), upperSize, variant)
    else state
  }

  /** The state after the first k rounds of a phase for `value`, with the round constants `rc`. */
  function Phase(state: nat, value: nat, rc: seq<nat>, variant: Variant, k: nat): (r: nat)
    requires k <= |rc|
    ensures k > 0 ==> r < Pow2(variant.StateSize())
    decreases k
  {
    if k == 0 then state
    else Round(Absorb(Phase(state, value, rc, variant, k - 1), value, variant, k - 1), rc[k - 1], variant)
  }

  /** The state after the phases for the first v values, from the zero state. */
  function Absorbed(values: seq<nat>, rc: seq<nat>, variant: Variant, v: nat): nat
    requires v <= |values|
  {
    if v == 0 then 0 else Phase(Absorbed(values, rc, variant, v - 1), values[v - 1], rc, variant, |rc|)
  }

  /**
   * `init`: the phase for the key from the zero state, and unless
   * `singleIteration` is set, the phase for the IV on top of it.
   */
  method Init(key: nat, iv: nat, variant: Variant, singleIteration: bool := false) returns (state: nat)
    ensures state == Absorbed([key, iv], RoundConstants(), variant, if singleIteration then 1 else 2)
  {
    state := 0;
    var roundConstants := GenRoundConstants();
    var values := [key, iv];
    for v := 0 to |values|
      invariant singleIteration ==> v == 0
      invariant state == Absorbed(values, roundConstants, variant, v)
    {
      AbsorbedNext(values, roundConstants, variant, v);
      state := RunPhase(state, values[v], roundConstants, variant);
      if singleIteration {
        break;
      }
    }
  }

  /** The body of the loop over `[key, iv]` in `init`: 15 rounds, with the injections before rounds 0 and 1. */
  method RunPhase(start: nat, value: nat, roundConstants: seq<nat>, variant: Variant) returns (state: nat)
    requires |roundConstants| == NO_CONSTANTS
    ensures state == Phase(start, value, roundConstants, variant, NO_CONSTANTS)
  {
    state := start;
    for i := 0 to 15
      invariant state == Phase(start, value, roundConstants, variant, i)
    {
      PhaseNext(start, value, roundConstants, variant, i);
      state := InjectBefore(state, value, variant, i);
      state := Round(state, roundConstants[i], variant);
    }
  }

  /** The branch of the loop body in `init` that injects the upper part before round 0 and the lower part before round 1. */
  method InjectBefore(state: nat, value: nat, variant: Variant, i: nat) returns (newState: nat)
    ensures newState == Absorb(state, value, variant, i)
  {
    var (upperSize, lowerSize) := PartSizes(variant);
    newState := state;
    if i == 0 {
      var upper := Shr(value, lowerSize);
      var injected := XorKeyPart(newState, upper, upperSize, variant);
      newState := injected.state;
    } else if i == 1 {
      var lower := MaskBits(value, lowerSize);
      var injected := XorKeyPart(newState, lower, upperSize, variant);
      newState := injected.state;
    }
  }

  /** One round of a phase. */
  lemma PhaseNext(start: nat, value: nat, rc: seq<nat>, variant: Variant, i: nat)
    requires i < |rc|
    ensures Phase(start, value, rc, variant, i + 1) == Round(Absorb(Phase(start, value, rc, variant, i), value, variant, i), rc[i], variant)
  {
  }

  /** One phase more. */
  lemma AbsorbedNext(values: seq<nat>, rc: seq<nat>, variant: Variant, v: nat)
    requires v < |values|
    ensures Absorbed(values, rc, variant, v + 1) == Phase(Absorbed(values, rc, variant, v), values[v], rc, variant, |rc|)
  {
  }

  /** With `single_iteration` set, `init` returns the key phase from the zero state. */
  lemma AbsorbedKey(key: nat, iv: nat, rc: seq<nat>, variant: Variant)
    ensures Absorbed([key, iv], rc, variant, 1) == Phase(0, key, rc, variant, |rc|)
  {
    AbsorbedNext([key, iv], rc, variant, 0);
  }

  /** Otherwise the IV phase follows, from the state the key phase left. */
  lemma AbsorbedKeyIv(key: nat, iv: nat, rc: seq<nat>, variant: Variant)
    ensures Absorbed([key, iv], rc, variant, 2) == Phase(Phase(0, key, rc, variant, |rc|), iv, rc, variant, |rc|)
  {
    AbsorbedNext([key, iv], rc, variant, 0);
    AbsorbedNext([key, iv], rc, variant, 1);
  }

  /** The state `init` returns fits the state width. */
  lemma AbsorbedBound(values: seq<nat>, rc: seq<nat>, variant: Variant, v: nat)
    requires 0 < v <= |values|
    ensures Absorbed(values, rc, variant, v) < Pow2(variant.StateSize())
  {
    AbsorbedNext(values, rc, variant, v - 1);
  }

  // ---------------------------------------------------------------------------

  /** Before round 0 every lane j receives pair j of the upper part in its two top bits. */
  lemma UpperInjectionLanes(state: nat, value: nat, variant: Variant, j: nat)
    requires j < variant.Lanes()
    ensures GetGroup(j, 5, variant.Lanes(), Absorb(state, value, variant, 0))
         == Xor(GetGroup(j, 5, variant.Lanes(), state),
                Shl(KeyPair(Shr(value, PartSizes(variant).1), PartSizes(variant).0, j), 3))
  {
    var (upperSize, lowerSize) := PartSizes(variant);
    XorKeyPartLanes(state, Shr(value, lowerSize), upperSize, variant, j);
  }

  /**
   * Before round 1 the lower part is injected with the upper width: the
   * first `(upper - lower) / 2` lanes (8 in DIZY-80, none in DIZY-128) are
   * left as they are, and the lanes after them receive the pairs of the
   * lower part in order.
   */
  lemma LowerInjectionLanes(state: nat, value: nat, variant: Variant, j: nat)
    requires j < variant.Lanes()
    ensures var (upperSize, lowerSize) := PartSizes(variant);
            var skipped := (upperSize - lowerSize) / 2;
            GetGroup(j, 5, variant.Lanes(), Absorb(state, value, variant, 1))
            == if j < skipped then GetGroup(j, 5, variant.Lanes(), state)
               else Xor(GetGroup(j, 5, variant.Lanes(), state), Shl(KeyPair(value, lowerSize, j - skipped), 3))
  {
    var (upperSize, lowerSize) := PartSizes(variant);
    var g := GetGroup(j, 5, variant.Lanes(), state);
    XorKeyPartLanes(state, MaskBits(value, lowerSize), upperSize, variant, j);
    KeyPairOfNarrow(value, lowerSize, upperSize, j);
    if j < (upperSize - lowerSize) / 2 {
      ShlZero(3);
      XorZero(g);
    }
  }

  /** Before every round, only the low `key_size` bits of the phase's value matter. */
  lemma AbsorbIgnoresHighBits(state: nat, value: nat, variant: Variant, i: nat)
    ensures Absorb(state, MaskBits(value, variant.KeySize()), variant, i) == Absorb(state, value, variant, i)
  {
    var (upperSize, lowerSize) := PartSizes(variant);
    var masked := MaskBits(value, variant.KeySize());
    if i == 0 {
      MaskedWindow(value, variant.KeySize(), lowerSize, upperSize);
      XorKeyPartIgnoresHighBits(state, Shr(masked, lowerSize), upperSize, variant);
      XorKeyPartIgnoresHighBits(state, Shr(value, lowerSize), upperSize, variant);
    } else if i == 1 {
      MaskedWindow(value, variant.KeySize(), 0, lowerSize);
    }
  }

  /** A round of a phase ignores the bits of the value above `key_size`. */
  lemma RoundIgnoresHighBits(state: nat, value: nat, roundConstant: nat, variant: Variant, i: nat)
    ensures Round(Absorb(state, MaskBits(value, variant.KeySize()), variant, i), roundConstant, variant)
         == Round(Absorb(state, value, variant, i), roundConstant, variant)
  {
    AbsorbIgnoresHighBits(state, value, variant, i);
  }

  /** If the first i rounds agree on the masked and the full value, so do the first i + 1. */
  lemma PhaseStepIgnoresHighBits(state: nat, value: nat, rc: seq<nat>, variant: Variant, i: nat)
    requires i < |rc|
    requires Phase(state, MaskBits(value, variant.KeySize()), rc, variant, i) == Phase(state, value, rc, variant, i)
    ensures Phase(state, MaskBits(value, variant.KeySize()), rc, variant, i + 1) == Phase(state, value, rc, variant, i + 1)
  {
    RoundIgnoresHighBits(Phase(state, value, rc, variant, i), value, rc[i], variant, i);
  }

  /** A phase ignores the bits of its key or IV above `key_size`: oversized inputs are not rejected. */
  lemma PhaseIgnoresHighBits(state: nat, value: nat, rc: seq<nat>, variant: Variant, k: nat)
    requires k <= |rc|
    ensures Phase(state, MaskBits(value, variant.KeySize()), rc, variant, k) == Phase(state, value, rc, variant, k)
  {
    for i := 0 to k
      invariant Phase(state, MaskBits(value, variant.KeySize()), rc, variant, i) == Phase(state, value, rc, variant, i)
    {
      PhaseStepIgnoresHighBits(state, value, rc, variant, i);
    }
  }
}
