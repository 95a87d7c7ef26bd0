# DIZY state update, modelled in Dafny

This project models the internal state-update primitive of the DIZY stream
cipher from `src/py/dizy.py`. It covers both variants: DIZY-80 has a 120-bit
state and an 80-bit key, and DIZY-128 has a 160-bit state and a 128-bit key.
The model covers:

- round-constant generation from a 4-bit LFSR;
- the four round layers: constant addition, the 5-bit S-box layer, the
  linear layer over 30- or 40-bit groups, and the mixing of eight segments;
- the round that composes them;
- key/IV injection;
- the two-phase (key, then IV) initialisation.

Python integers are unbounded and never negative here, so a state is a
`nat`. The operators `>>`, `<<`, `&`, `|`, `^` and `**` are recursive
functions in module `Bits`. Every fact about them is reduced to single bits.

Each loop of the source is a `method` with the same loop, proved against a
specification function. Properties are proved about those functions:
bijectivity, XOR-linearity, involutions, width bounds, and which bits an
operation touches.

- `ApplySBox` builds the result from the least-significant lane up, as the
  source does. The lemma `PackLowIsPack` connects that order to the
  most-significant-first packing `Pack`.
- `apply_matrix` iterates over a Python set. `RowParity` picks the next
  index with `:|`, so its result is proved the same for every iteration order.
- In `init`, the body of the loop over `[key, iv]` is the method
  `RunPhase`. The `i == 0` and `i == 1` branches of its inner
  loop are the method `InjectBefore`. The loops, their order and the early
  `break` are kept.

Round constants are derived by replaying `lfsr_fun` from 8. They are
8, 1, 3, 7, 15, 14, 13, 10, 5, 11, 6, 12, 9, 2, 4.

The lower half of a key or IV is injected with the upper half's width
(`src/py/dizy.py:188-189`), exactly as in the source. As a result, in DIZY-80
the eight most-significant lanes receive only zero bits before round 1.

## Model

| member | source | states |
|---|---|---|
| Bits.GetBit | src/py/dizy.py:10-12 | `get_bit` yields a single bit, 0 or 1 |
| Bits.GetBitIsAnd | src/py/dizy.py:10-12 | the bit read equals `(value >> n) & 1`, the source's own formula |
| Bits.GetBitMask | src/py/dizy.py:14-16 | bit n of `mask_bits(x, w)` is bit n of x below w and 0 from w upwards |
| Bits.MaskBitsBound | src/py/dizy.py:14-16 | `mask_bits(x, w) < 2**w` |
| Bits.MaskBitsOfSmall | src/py/dizy.py:14-16 | masking a value that already fits in w bits leaves it unchanged |
| Groups.GetGroup | src/py/dizy.py:18-22 | requires the asserted `i < no_groups`; group i is below `2**group_size` |
| Groups.GetBitOfGroup | src/py/dizy.py:18-22 | bit j of group i is state bit `(n-1-i)*w + j`: group 0 holds the most-significant bits |
| Groups.GetGroupXor | src/py/dizy.py:18-22 | taking a group commutes with XOR |
| Groups.GroupsEqual | src/py/dizy.py:18-22 | two numbers below `2**(n*w)` with equal groups are equal |
| Groups.UnpackPack | src/py/dizy.py:18-22 | packing the n groups of a value below `2**(n*w)` gives the value back |
| Groups.PackGroup | src/py/dizy.py:18-22 | group i of a packing of w-bit parts is part i |
| Groups.PackLowIsPack | src/py/dizy.py:81-85 | OR-ing `part << i*w` from the least-significant end builds the same number as appending most-significant first |
| Variants.Variant.StateSize | src/py/dizy.py:30-34 | the state width (120 or 160) is a positive multiple of 5 and of 8 |
| Variants.Variant.KeySize | src/py/dizy.py:36-40 | the key width (80 or 128) is even and narrower than the state |
| Variants.Variant.Lanes | src/py/dizy.py:62 | the state holds exactly `state_size / 5` lanes |
| RoundConstantGenerator.LfsrFun | src/py/dizy.py:44-48 | one register step stays below 16 |
| RoundConstantGenerator.LfsrFunBits | src/py/dizy.py:44-48 | new bit 0 is bit 3 XOR bit 0, bits 1..3 are the old bits 0..2, higher bits are 0 |
| RoundConstantGenerator.LfsrFunValue | src/py/dizy.py:44-48 | the step as arithmetic: `8*b2 + 4*b1 + 2*b0 + (b3 xor b0)` |
| RoundConstantGenerator.Register | src/py/dizy.py:52-57 | the register after n steps from 8 is a 4-bit value |
| RoundConstantGenerator.RegisterNext | src/py/dizy.py:56-57 | each register value is one `lfsr_fun` step from the previous one |
| RoundConstantGenerator.RoundConstants | src/py/dizy.py:50-58 | the list has exactly 15 entries |
| RoundConstantGenerator.GenRoundConstants | src/py/dizy.py:50-58 | the loop returns the register's values before each of its 15 steps |
| RoundConstantGenerator.RoundConstantsGrow | src/py/dizy.py:55-56 | each append extends the list by the current register value |
| RoundConstantGenerator.RegisterReplay | src/py/dizy.py:44-58 | replaying the register from 8 gives 8, 1, 3, 7, 15, 14, 13, 10, 5, 11, 6, 12, 9, 2, 4 |
| RoundConstantGenerator.RegisterList | src/py/dizy.py:50-58 | a 15-entry list of the register's values is exactly that replayed list |
| RoundConstantGenerator.RoundConstantsValues | src/py/dizy.py:50-58 | the round constants are 8, 1, 3, 7, 15, 14, 13, 10, 5, 11, 6, 12, 9, 2, 4 |
| RoundConstantGenerator.RoundConstantsRecurrence | src/py/dizy.py:50-58 | the first constant is 8 and each later one is `lfsr_fun` of the one before |
| RoundConstantGenerator.RoundConstantsDistinct | src/py/dizy.py:44-58 | the 15 constants are pairwise distinct and each lies in 1..15 |
| ConstAddition.ConstAdd | src/py/dizy.py:60-65 | the loop XORs the constant in at every lane offset `5i` for `i < state_size/5` |
| ConstAddition.BroadcastPacked | src/py/dizy.py:63-64 | a 5-bit constant XOR-ed at every lane offset is that many packed copies of itself |
| ConstAddition.ConstAddInvolution | src/py/dizy.py:60-65 | adding the same constant twice gives the state back |
| ConstAddition.ConstAddLane | src/py/dizy.py:60-65 | for a constant below 32, every lane of the result is that lane XOR the constant |
| ConstAddition.ConstAddKeepsTopBits | src/py/dizy.py:60-65 | a constant below 16 never changes the top bit (offset 5i+4) of any lane |
| ConstAddition.ConstAddBound | src/py/dizy.py:60-65 | for a constant below 32, a state within the state width stays within it |
| Substitution.SBox | src/py/dizy.py:67-76 | the image of a lane value is below 32 |
| Substitution.SBoxIsTable | src/py/dizy.py:67-76 | the mask in `sbox` never changes a table entry |
| Substitution.SBoxPermutation | src/py/dizy.py:67-76 | the table is a permutation of 0..31: injective, and the inverse table undoes it on both sides |
| Substitution.ApplySBox | src/py/dizy.py:78-86 | the loop replaces every lane, from least to most significant, by its S-box image |
| Substitution.LowGroup | src/py/dizy.py:82-84 | the lane read at shift `5i` is lane `n-1-i` counted from the top, and it indexes the table |
| Substitution.SubstitutedLane | src/py/dizy.py:78-86 | lane k of the result is `SBOX[lane k of the input]`, independently of other lanes |
| Substitution.SubstitutedBound | src/py/dizy.py:78-86 | the result is below `2**state_size`, however wide the input |
| Substitution.SubstitutionBijective | src/py/dizy.py:67-86 | on states within the width, the layer and its inverse undo each other |
| LinearLayer.GroupSize | src/py/dizy.py:111-115 | four groups of 30 or 40 bits fill the state |
| LinearLayer.M80WellFormed | src/py/dizy.py:88-96 | `M_80` has 30 rows and every index in it is below 30 |
| LinearLayer.M128WellFormed | src/py/dizy.py:98-107 | `M_128` has 40 rows and every index in it is below 40 |
| LinearLayer.ApplyMatrix | src/py/dizy.py:109-124 | the variant picks the matrix and width; the result is the matrix applied group by group |
| LinearLayer.MultiplyGroups | src/py/dizy.py:115-124 | the two outer loops shift each row's bit into the result, group 0 and row 0 most significant |
| LinearLayer.RowParity | src/py/dizy.py:120-122 | in any iteration order, a row's bit is the parity of the group bits it names |
| LinearLayer.ParityStep | src/py/dizy.py:121-122 | XOR-ing one more named bit into the running bit updates the parity of the bits seen |
| LinearLayer.RowStep | src/py/dizy.py:123 | `new_state << 1` OR-ed with `new_bit` appends the row's bit below the bits so far |
| LinearLayer.GroupProductBit | src/py/dizy.py:119-123 | output bit r of a group, from the top, is the XOR of the bits row r names |
| LinearLayer.MatrixGroupwise | src/py/dizy.py:117-123 | output group i depends on input group i alone |
| LinearLayer.MatrixBound | src/py/dizy.py:109-124 | the result fits the state width, however wide the input |
| LinearLayer.MatrixLinear | src/py/dizy.py:109-124 | the layer is XOR-linear |
| LinearLayer.MatrixOfZero | src/py/dizy.py:109-124 | the layer maps 0 to 0 |
| GroupMix.SegmentSize | src/py/dizy.py:127-128 | eight segments fill the state width |
| GroupMix.MixGroups | src/py/dizy.py:126-133 | the loop appends the segments in the order 0, 4, 1, 5, 2, 6, 3, 7 |
| GroupMix.ReorderedSegment | src/py/dizy.py:130-132 | segment k of a reordering is the input segment the order names at k |
| GroupMix.MixedSegment | src/py/dizy.py:126-133 | output segment k is input segment `[0,4,1,5,2,6,3,7][k]` |
| GroupMix.MixedBound | src/py/dizy.py:126-133 | the result fits the state width, however wide the input |
| GroupMix.OrdersInverse | src/py/dizy.py:130 | the mixing order and `[0,2,4,6,1,3,5,7]` are inverse permutations |
| GroupMix.MixBijective | src/py/dizy.py:126-133 | on states within the width, the order `[0,2,4,6,1,3,5,7]` undoes the mixing on both sides |
| RoundFunction.Round | src/py/dizy.py:135-146 | the four layers in the source's order; the result is always below `2**state_size` |
| KeyInjection.KeyPair | src/py/dizy.py:159-160 | each pair read from the key part is a 2-bit value |
| KeyInjection.XorKeyPart | src/py/dizy.py:154-163 | the loop XORs pair i into the state at `state_size-(i+1)*5+3`, or fails on Python's negative-shift error |
| KeyInjection.InjectionStep | src/py/dizy.py:159-162 | one iteration injects the next pair |
| KeyInjection.KeyXoredFails | src/py/dizy.py:161-162 | the negative-shift error happens exactly when the key part has more pairs than the state has lanes |
| KeyInjection.XorKeyPartTouches | src/py/dizy.py:154-163 | only bits at offsets `state_size-(i+1)*5+3` and `+4`, for `i < key_part_size/2`, can change |
| KeyInjection.XorKeyPartLanes | src/py/dizy.py:154-163 | lane j gets pair j in its top two bits when `j < key_part_size/2`, and every other lane is unchanged |
| KeyInjection.XorKeyPartLaneBits | src/py/dizy.py:154-163 | the low three bits of every lane are unchanged; the top two bits of lane j are XOR-ed with pair j |
| KeyInjection.XorKeyPartInvolution | src/py/dizy.py:154-163 | injecting the same key part twice gives the state back |
| KeyInjection.XorKeyPartBound | src/py/dizy.py:154-163 | with `key_part_size/2 <= state_size/5`, a state within the width stays within it |
| KeyInjection.KeyPairOfMasked | src/py/dizy.py:159-160 | a pair reads only key-part bits below `key_part_size` |
| KeyInjection.KeyPairOfNarrow | src/py/dizy.py:188-189 | a narrow key part read at a wider width yields zero pairs first, then its own pairs |
| KeyInjection.XorKeyPartIgnoresHighBits | src/py/dizy.py:154-163 | the result depends on the key part only modulo `2**key_part_size` |
| Initialization.PartSizes | src/py/dizy.py:172-175 | the upper size is two bits per lane, and the two sizes add up to the key width |
| Initialization.Injected | src/py/dizy.py:182 | with at most one pair per lane, `xor_key_part` succeeds with this state |
| Initialization.Phase | src/py/dizy.py:176-192 | after at least one round of a phase, the state fits the state width |
| Initialization.Init | src/py/dizy.py:165-197 | starting from 0, `single_iteration` (default false) gives the key phase only; otherwise the IV phase runs next |
| Initialization.RunPhase | src/py/dizy.py:176-192 | the 15 rounds of one phase, with round constant i at round i |
| Initialization.InjectBefore | src/py/dizy.py:177-189 | inject `value >> lower_size` before round 0 and `mask_bits(value, lower_size)` before round 1, both at the upper width |
| Initialization.PhaseNext | src/py/dizy.py:176-192 | each round of a phase injects (if due) and then applies the round |
| Initialization.AbsorbedNext | src/py/dizy.py:171-192 | each value of `[key, iv]` runs a full phase on the state the previous one left |
| Initialization.AbsorbedKey | src/py/dizy.py:168-196 | with `single_iteration`, the result is the key phase from the zero state |
| Initialization.AbsorbedKeyIv | src/py/dizy.py:168-197 | otherwise the IV phase, with the same constants, runs on the key phase's result |
| Initialization.AbsorbedBound | src/py/dizy.py:165-197 | the state `init` returns fits the state width |
| Initialization.UpperInjectionLanes | src/py/dizy.py:181-182 | before round 0, lane j receives pair j of the upper part in its two top bits |
| Initialization.LowerInjectionLanes | src/py/dizy.py:188-189 | before round 1, the first `(upper-lower)/2` lanes (8 in DIZY-80) stay unchanged; later lanes get the lower part's pairs in order |
| Initialization.AbsorbIgnoresHighBits | src/py/dizy.py:181-189 | the injections read only the low `key_size` bits of the value |
| Initialization.PhaseStepIgnoresHighBits | src/py/dizy.py:176-192 | if the first i rounds agree on a value and its masked form, so do the first i + 1 |
| Initialization.PhaseIgnoresHighBits | src/py/dizy.py:171-192 | a phase ignores key or IV bits above `key_size`; oversized inputs are not rejected |

## Left out

- Debug printing on the global `debug` (`src/py/dizy.py:136-145`, `177-193`): it is output only and never affects the state.
- `state_to_str` (`src/py/dizy.py:148-152`): it only formats hex text.
- The `key_added` flag (`src/py/dizy.py:170`, `194`): it only selects the wording of a debug message.
- The test harness and the `__main__` block (`src/py/dizy.py:203-249`): these are printing drivers.
- The known-answer vectors (`src/py/dizy.py:232-239`): evaluating 30 to 45 rounds on concrete 160-bit states is not a proof obligation.
- Negative Python integers: every value is a `nat`. Python's `>>` and `&` on negative numbers are not modelled.
- Substitution.SBox: an index past 31 raises `IndexError` in the source; the model requires `group < 32` instead. The only caller passes a 5-bit value.
- Groups.GetGroup: the source's `assert i < no_groups` becomes a precondition rather than an `AssertionError` outcome.
- The linear matrix is proved XOR-linear and groupwise but not invertible, so no lemma states that `round` as a whole is a bijection.
