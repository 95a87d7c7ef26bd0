/**
 * Round constants (source: `lfsr_fun`, `gen_round_constants`).
 *
 * A 4-bit linear feedback shift register starting at 8: each step shifts the
 * register left by one, feeds back bit 3 XOR bit 0 as the new bit 0, and
 * keeps 4 bits. The 15 constants are the register's values before each step.
 */
module RoundConstantGenerator {
  import opened Bits

  const LFSR_SEED: nat := 8
  const NO_CONSTANTS: nat := 15

  /** `lfsr_fun`: one step of the register */
  function LfsrFun(lfsrState: nat): (next: nat)
    ensures next < 16
  {
    var newVal := Xor(GetBit(lfsrState, 3), GetBit(lfsrState, 0));
    MaskBitsBound(Or(Shl(lfsrState, 1), newVal), 4);
    MaskBits(Or(Shl(lfsrState, 1), newVal), 4)
  }

  /** The register after n steps from the seed. */
  function Register(n: nat): (r: nat)
    ensures r < 16
  {
    if n == 0 then LFSR_SEED else LfsrFun(Register(n - 1))
  }

  /** The list `gen_round_constants` returns: the register's first 15 values. */
  function RoundConstants(): (rc: seq<nat>)
    ensures |rc| == NO_CONSTANTS
  {
    seq(NO_CONSTANTS, i requires 0 <= i < NO_CONSTANTS => Register(i))
  }

  /** `gen_round_constants` */
  method GenRoundConstants() returns (roundConstants: seq<nat>)
    ensures roundConstants == RoundConstants()
  {
    var lfsrState := LFSR_SEED;
    roundConstants := [];
    for i := 0 to NO_CONSTANTS
      invariant lfsrState == Register(i)
      invariant roundConstants == RoundConstants()[..i]
    {
      RoundConstantsGrow(i);
      RegisterNext(i);
      roundConstants := roundConstants + [lfsrState];
      lfsrState := LfsrFun(lfsrState);
    }
    assert RoundConstants()[..NO_CONSTANTS] == RoundConstants();
  }

  // ---------------------------------------------------------------------------

  /** One step of the register. */
  lemma RegisterNext(n: nat)
    ensures Register(n + 1) == LfsrFun(Register(n))
  {
  }

  /** The first i + 1 round constants are the first i and register value i. */
  lemma RoundConstantsGrow(i: nat)
    requires i < NO_CONSTANTS
    ensures RoundConstants()[..i + 1] == RoundConstants()[..i] + [Register(i)]
  {
    PrefixGrow(RoundConstants(), i);
  }

  /** A prefix grows by the next element. */
  lemma PrefixGrow(s: seq<nat>, i: nat)
    requires i < |s|
    ensures s[..i + 1] == s[..i] + [s[i]]
  {
  }

  /** The register, bit by bit: bit 0 is the feedback, bits 1..3 are the old bits 0..2. */
  lemma LfsrFunBits(s: nat, j: nat)
    ensures GetBit(LfsrFun(s), j) ==
      if j == 0 then (if GetBit(s, 3) != GetBit(s, 0) then 1 else 0)
      else if j < 4 then GetBit(s, j - 1)
      else 0
  {
    var newVal := Xor(GetBit(s, 3), GetBit(s, 0));
    var y := Or(Shl(s, 1), newVal);
    GetBitMask(y, 4, j);
    GetBitOr(Shl(s, 1), newVal, j);
    GetBitShl(s, 1, j);
    XorOfBits(GetBit(s, 3), GetBit(s, 0));
    if j == 0 {
      GetBitLow(newVal);
    } else {
      GetBitHigh(newVal, j - 1);
      GetBitOfZero(j - 1);
    }
  }

  /** A 4-bit value is the sum of its weighted bits. */
  lemma Nibble(x: nat)
    requires x < 16
    ensures x == 8 * GetBit(x, 3) + 4 * GetBit(x, 2) + 2 * GetBit(x, 1) + GetBit(x, 0)
  {
    var y1 := x / 2;
    var y2 := y1 / 2;
    var y3 := y2 / 2;
    GetBitLow(x);
    GetBitHigh(x, 0);
    GetBitLow(y1);
    GetBitHigh(x, 1);
    GetBitHigh(y1, 0);
    GetBitLow(y2);
    GetBitHigh(x, 2);
    GetBitHigh(y1, 1);
    GetBitHigh(y2, 0);
    GetBitLow(y3);
  }

  /** One step of the register as arithmetic on its bits. */
  lemma LfsrFunValue(s: nat)
    ensures LfsrFun(s) == 8 * GetBit(s, 2) + 4 * GetBit(s, 1) + 2 * GetBit(s, 0)
                          + (if GetBit(s, 3) != GetBit(s, 0) then 1 else 0)
  {
    Nibble(LfsrFun(s));
    LfsrFunBits(s, 0);
    LfsrFunBits(s, 1);
    LfsrFunBits(s, 2);
    LfsrFunBits(s, 3);
  }

  /** One register step on a value given by its four bits. */
  lemma LfsrAt(s: nat, b3: nat, b2: nat, b1: nat, b0: nat)
    requires b3 < 2 && b2 < 2 && b1 < 2 && b0 < 2 && s == 8 * b3 + 4 * b2 + 2 * b1 + b0
    ensures LfsrFun(s) == 8 * b2 + 4 * b1 + 2 * b0 + (if b3 != b0 then 1 else 0)
  {
    var y1 := s / 2;
    assert y1 == 4 * b3 + 2 * b2 + b1;
    var y2 := y1 / 2;
    assert y2 == 2 * b3 + b2;
    var y3 := y2 / 2;
    assert y3 == b3;
    GetBitLow(s);
    GetBitHigh(s, 0);
    GetBitLow(y1);
    GetBitHigh(s, 1);
    GetBitHigh(y1, 0);
    GetBitLow(y2);
    GetBitHigh(s, 2);
    GetBitHigh(y1, 1);
    GetBitHigh(y2, 0);
    GetBitLow(y3);
    LfsrFunValue(s);
  }

  /** The register replayed from 8. */
  lemma RegisterReplay()
    ensures Register(0) == 8 && Register(1) == 1 && Register(2) == 3 && Register(3) == 7 && Register(4) == 15
    ensures Register(5) == 14 && Register(6) == 13 && Register(7) == 10 && Register(8) == 5 && Register(9) == 11
    ensures Register(10) == 6 && Register(11) == 12 && Register(12) == 9 && Register(13) == 2 && Register(14) == 4
  {
    LfsrAt(8, 1, 0, 0, 0);
    LfsrAt(1, 0, 0, 0, 1);
    LfsrAt(3, 0, 0, 1, 1);
    LfsrAt(7, 0, 1, 1, 1);
    LfsrAt(15, 1, 1, 1, 1);
    LfsrAt(14, 1, 1, 1, 0);
    LfsrAt(13, 1, 1, 0, 1);
    LfsrAt(10, 1, 0, 1, 0);
    LfsrAt(5, 0, 1, 0, 1);
    LfsrAt(11, 1, 0, 1, 1);
    LfsrAt(6, 0, 1, 1, 0);
    LfsrAt(12, 1, 1, 0, 0);
    LfsrAt(9, 1, 0, 0, 1);
    LfsrAt(2, 0, 0, 1, 0);
  }

  /** A list of 15 given values. */
  lemma ListOfValues(rc: seq<nat>)
    requires |rc| == 15
    requires rc[0] == 8 && rc[1] == 1 && rc[2] == 3 && rc[3] == 7 && rc[4] == 15
    requires rc[5] == 14 && rc[6] == 13 && rc[7] == 10 && rc[8] == 5 && rc[9] == 11
    requires rc[10] == 6 && rc[11] == 12 && rc[12] == 9 && rc[13] == 2 && rc[14] == 4
    ensures rc == [8, 1, 3, 7, 15, 14, 13, 10, 5, 11, 6, 12, 9, 2, 4]
  {
  }

  /** A list of the register's first 15 values. */
  lemma RegisterList(rc: seq<nat>)
    requires |rc| == NO_CONSTANTS
    requires forall k | 0 <= k < NO_CONSTANTS :: rc[k] == Register(k)
    ensures rc == [8, 1, 3, 7, 15, 14, 13, 10, 5, 11, 6, 12, 9, 2, 4]
  {
    RegisterReplay();
    ListOfValues(rc);
  }

  /** The round constants, value by value. */
  lemma RoundConstantsValues()
    ensures RoundConstants() == [8, 1, 3, 7, 15, 14, 13, 10, 5, 11, 6, 12, 9, 2, 4]
  {
    RegisterList(RoundConstants());
  }

  /** Each round constant is one register step from the previous one. */
  lemma RoundConstantsRecurrence()
    ensures RoundConstants()[0] == LFSR_SEED
    ensures forall k | 1 <= k < NO_CONSTANTS :: RoundConstants()[k] == LfsrFun(RoundConstants()[k - 1])
  {
  }

  /** The replayed values are distinct nonzero 4-bit values. */
  lemma DistinctNibbles(cs: seq<nat>)
    requires cs == [8, 1, 3, 7, 15, 14, 13, 10, 5, 11, 6, 12, 9, 2, 4]
    ensures forall k | 0 <= k < |cs| :: 0 < cs[k] < 16
    ensures forall j, k | 0 <= j < k < |cs| :: cs[j] != cs[k]
  {
  }

  /** The round constants are 15 distinct nonzero 4-bit values. */
  lemma RoundConstantsDistinct()
    ensures forall k | 0 <= k < NO_CONSTANTS :: 0 < RoundConstants()[k] < 16
    ensures forall j, k | 0 <= j < k < NO_CONSTANTS :: RoundConstants()[j] != RoundConstants()[k]
  {
    RoundConstantsValues();
    DistinctNibbles(RoundConstants());
  }
}
